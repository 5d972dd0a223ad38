/** The process table's arrays and the methods that change them in place. */
module ProcessStore {
  import opened Common
  import opened ProcessTable

  class Store {
    const processes: array<Option<Process>>
    const processGenerations: array<nat>
    const threads: array<Option<Thread>>
    const threadGenerations: array<nat>

    ghost function View(): Table
      reads processes, processGenerations, threads, threadGenerations
    {
      Table(processes[..], processGenerations[..], threads[..], threadGenerations[..])
    }

    ghost predicate Fit() {
      && processes.Length == MAX_PROCESSES && processGenerations.Length == MAX_PROCESSES
      && threads.Length == MAX_THREADS && threadGenerations.Length == MAX_THREADS
      && processGenerations != threadGenerations
    }

    constructor ()
      ensures Fit() && View() == NewTable()
      ensures fresh(processes) && fresh(processGenerations) && fresh(threads) && fresh(threadGenerations)
    {
      processes := new Option<Process>[MAX_PROCESSES](_ => None);
      processGenerations := new nat[MAX_PROCESSES](_ => 0);
      threads := new Option<Thread>[MAX_THREADS](_ => None);
      threadGenerations := new nat[MAX_THREADS](_ => 0);
    }

    /** Creates the process in its slot, then its thread; with no thread slot left the process is taken back. */
    method CreateAt(s: nat, parent: Option<nat>) returns (r: Result<(nat, nat), Error>)
      requires Fit() && s < MAX_PROCESSES && processes[s].None?
      modifies processes, threads
      ensures Done(r, View()) == ProcessTable.CreateAt(old(View()), s, parent)
    {
      var process := Pack(s, processGenerations[s]);
      var record := NewProcess(process, parent);
      processes[s] := Some(record);
      var free := Vacant(threads[..], 0);
      if free.None? {
        processes[s] := None;
        return Err(ThreadCapacity);
      }
      var k := free.value;
      var thread := Pack(k, threadGenerations[k]);
      threads[k] := Some(Thread(thread, Some(process), Created, User));
      processes[s] := Some(record.(threads := record.threads[0 := Some(thread)]));
      processes[s] := Some(processes[s].value.(state := Running));
      threads[k] := Some(threads[k].value.(state := Ready));
      return Ok((process, thread));
    }

    method CreateInit() returns (r: Result<(nat, nat), Error>)
      requires Fit()
      modifies processes, threads
      ensures Done(r, View()) == ProcessTable.CreateInit(old(View()))
    {
      if processes[0].Some? {
        return Err(InvalidState);
      }
      r := CreateAt(0, None);
    }

    method SpawnChild(parent: nat) returns (r: Result<(nat, nat), Error>)
      requires Fit()
      modifies processes, threads
      ensures Done(r, View()) == ProcessTable.SpawnChild(old(View()), parent)
    {
      var found := FindIn(parent);
      if found.None? {
        return Err(InvalidId);
      }
      if processes[found.value].value.state != Running {
        return Err(InvalidState);
      }
      var free := Vacant(processes[..], 0);
      if free.None? {
        return Err(ProcessCapacity);
      }
      r := CreateAt(free.value, Some(parent));
    }

    /** The slot of the process the table accepts under this id. */
    method FindIn(id: nat) returns (r: Option<nat>)
      requires Fit()
      ensures r == FindProcess(View(), id)
    {
      var low := Low(id);
      if low == 0 || low > MAX_PROCESSES {
        return None;
      }
      if processGenerations[low - 1] != High(id) {
        return None;
      }
      return if processes[low - 1].Some? && processes[low - 1].value.id == id then Some(low - 1) else None;
    }

    method Exit(id: nat, status: int) returns (r: Result<(), Error>)
      requires Fit()
      modifies processes, threads
      ensures Done(r, View()) == ProcessTable.Exit(old(View()), id, status)
    {
      if id == INIT {
        return Err(InvalidState);
      }
      var found := FindIn(id);
      if found.None? {
        return Err(InvalidId);
      }
      var s := found.value;
      if processes[s].value.state != Running {
        return Err(InvalidState);
      }
      ghost var t := View();
      processes[s] := Some(processes[s].value.(state := Exiting, exitStatus := Some(status),
          fds := seq(MAX_FDS, _ => None)));
      ghost var exiting := processes[..];
      ExitThreads(id);
      MoveChildren(id);
      processes[s] := Some(processes[s].value.(state := Zombie));
      assert forall i :: 0 <= i < MAX_PROCESSES && i != s ==> exiting[i] == t.processes[i];
      assert processes[..] == WithExit(t, s, id, status).processes;
      assert threads[..] == WithExit(t, s, id, status).threads;
      return Ok(());
    }

    method ExitThreads(id: nat)
      modifies threads
      ensures threads[..] == seq(threads.Length,
              k requires 0 <= k < threads.Length => ThreadAfterExit(old(threads[k]), id))
    {
      for k := 0 to threads.Length
        invariant forall i :: 0 <= i < k ==> threads[i] == ThreadAfterExit(old(threads[i]), id)
        invariant forall i :: k <= i < threads.Length ==> threads[i] == old(threads[i])
      {
        if threads[k].Some? && threads[k].value.process == Some(id) {
          threads[k] := Some(threads[k].value.(state := Exited));
        }
      }
    }

    method MoveChildren(id: nat)
      modifies processes
      ensures processes[..]
              == seq(processes.Length, i requires 0 <= i < processes.Length => ProcessAfterExit(old(processes[i]), id))
    {
      for i := 0 to processes.Length
        invariant forall j :: 0 <= j < i ==> processes[j] == ProcessAfterExit(old(processes[j]), id)
        invariant forall j :: i <= j < processes.Length ==> processes[j] == old(processes[j])
      {
        if processes[i].Some? && processes[i].value.parent == Some(id) {
          processes[i] := Some(processes[i].value.(parent := Some(INIT)));
        }
      }
    }

    /** Frees the listed thread slots one by one, each a generation older. */
    method FreeListed(ids: seq<Option<nat>>) returns (r: Result<(), Error>)
      requires Fit()
      modifies threads, threadGenerations
      ensures Done(r, View()) == FreeThreads(old(View()), ids, 0)
    {
      ghost var goal := FreeThreads(View(), ids, 0);
      for j := 0 to |ids|
        invariant FreeThreads(View(), ids, j) == goal
        invariant processes[..] == old(processes[..]) && processGenerations[..] == old(processGenerations[..])
      {
        if ids[j].Some? {
          var low := Low(ids[j].value);
          if low == 0 || low > MAX_THREADS {
            return Err(InvalidId);
          }
          if threads[low - 1].None? || threads[low - 1].value.id != ids[j].value {
            return Err(InvalidId);
          }
          ghost var t := View();
          threads[low - 1] := None;
          assert View() == SetThread(t, low - 1, None);
          if threadGenerations[low - 1] + 1 >= U16_LIMIT {
            return Err(GenerationExhausted);
          }
          threadGenerations[low - 1] := threadGenerations[low - 1] + 1;
          assert View() == SetThread(t, low - 1, None).(
              threadGenerations := t.threadGenerations[low - 1 := t.threadGenerations[low - 1] + 1]);
        }
      }
      return Ok(());
    }

    method Reap(s: nat) returns (r: Result<(), Error>)
      requires Fit() && s < MAX_PROCESSES && processes[s].Some?
      modifies processes, processGenerations, threads, threadGenerations
      ensures Done(r, View()) == ProcessTable.Reap(old(View()), s)
    {
      if processes[s].value.state != Zombie {
        return Err(InvalidState);
      }
      r := FreeListed(processes[s].value.threads);
      if r.Err? {
        return;
      }
      ghost var freed := View();
      processes[s] := None;
      assert View() == SetProcess(freed, s, None);
      if processGenerations[s] + 1 >= U16_LIMIT {
        return Err(GenerationExhausted);
      }
      processGenerations[s] := processGenerations[s] + 1;
      return Ok(());
    }

    method WaitFor(id: nat) returns (r: Result<(nat, int), Error>)
      requires Fit()
      modifies processes, processGenerations, threads, threadGenerations
      ensures Done(r, View()) == ProcessTable.WaitFor(old(View()), id)
    {
      var found := FindIn(id);
      if found.None? {
        return Err(InvalidId);
      }
      var status := processes[found.value].value.exitStatus;
      if status.None? {
        return Err(InvalidState);
      }
      var reaped := Reap(found.value);
      if reaped.Err? {
        return Err(reaped.error);
      }
      return Ok((id, status.value));
    }

    method Wait(parent: nat, child: Option<nat>) returns (r: Result<(nat, int), Error>)
      requires Fit()
      modifies processes, processGenerations, threads, threadGenerations
      ensures Done(r, View()) == ProcessTable.Wait(old(View()), parent, child)
    {
      var waiter := FindIn(parent);
      if waiter.None? {
        return Err(InvalidId);
      }
      if child.Some? {
        var found := FindIn(child.value);
        if found.None? {
          return Err(InvalidId);
        }
        if !IsDeadChild(processes[found.value], parent) {
          return Err(NoChild);
        }
        r := WaitFor(child.value);
        return;
      }
      for s := 0 to processes.Length
        invariant FirstDeadChild(View(), parent, 0) == FirstDeadChild(View(), parent, s)
        invariant View() == old(View())
      {
        if IsDeadChild(processes[s], parent) {
          r := WaitFor(processes[s].value.id);
          return;
        }
      }
      return Err(NoChild);
    }

    /** Drops the descriptors marked to close on exec, and counts them. */
    method CloseOnExec(id: nat) returns (r: Result<nat, Error>)
      requires Fit()
      modifies processes
      ensures Done(r, View()) == ProcessTable.CloseOnExec(old(View()), id)
    {
      var found := FindIn(id);
      if found.None? {
        return Err(InvalidId);
      }
      var fds := processes[found.value].value.fds;
      var kept, closed := fds, 0;
      for k := 0 to |fds|
        invariant |kept| == |fds| && closed == Closed(fds, k)
        invariant forall i :: 0 <= i < k ==> kept[i] == Kept(fds)[i]
        invariant forall i :: k <= i < |fds| ==> kept[i] == fds[i]
      {
        if kept[k].Some? && kept[k].value.closeOnExec {
          kept, closed := kept[k := None], closed + 1;
        }
      }
      assert kept == Kept(fds);
      processes[found.value] := Some(processes[found.value].value.(fds := kept));
      return Ok(closed);
    }

    /** The slot of the thread the table accepts under this id. */
    method FindThreadIn(id: nat) returns (r: Option<nat>)
      requires Fit()
      ensures r == FindThread(View(), id)
    {
      var low := Low(id);
      if low == 0 || low > MAX_THREADS {
        return None;
      }
      if threadGenerations[low - 1] != High(id) {
        return None;
      }
      return if threads[low - 1].Some? && threads[low - 1].value.id == id then Some(low - 1) else None;
    }

    method SwitchTo(from: Option<nat>, onto: nat) returns (r: Result<(), Error>)
      requires Fit()
      modifies threads
      ensures Done(r, View()) == ProcessTable.SwitchTo(old(View()), from, onto)
    {
      if from == Some(onto) {
        return Err(InvalidState);
      }
      var leaving: Option<nat> := None;
      if from.Some? {
        leaving := FindThreadIn(from.value);
        if leaving.None? {
          return Err(InvalidId);
        }
        if threads[leaving.value].value.state != OnCpu {
          return Err(InvalidState);
        }
      }
      var next := FindThreadIn(onto);
      if next.None? {
        return Err(InvalidId);
      }
      if threads[next.value].value.state != Ready {
        return Err(InvalidState);
      }
      if from.Some? {
        threads[leaving.value] := Some(threads[leaving.value].value.(state := Ready));
      }
      threads[next.value] := Some(threads[next.value].value.(state := OnCpu));
      return Ok(());
    }

    /** Moves a thread from one of the allowed states to another. */
    method SetState(k: nat, state: ThreadState)
      requires Fit() && k < MAX_THREADS && threads[k].Some?
      modifies threads
      ensures View() == WithState(old(View()), k, state)
    {
      threads[k] := Some(threads[k].value.(state := state));
    }

    method BlockThread(id: nat, sleeping: bool) returns (r: Result<(), Error>)
      requires Fit()
      modifies threads
      ensures Done(r, View()) == ProcessTable.BlockThread(old(View()), id, sleeping)
    {
      var found := FindThreadIn(id);
      if found.None? {
        return Err(InvalidId);
      }
      if threads[found.value].value.state != Ready && threads[found.value].value.state != OnCpu {
        return Err(InvalidState);
      }
      SetState(found.value, if sleeping then Sleeping else Blocked);
      return Ok(());
    }

    method WakeThread(id: nat) returns (r: Result<(), Error>)
      requires Fit()
      modifies threads
      ensures Done(r, View()) == ProcessTable.WakeThread(old(View()), id)
    {
      var found := FindThreadIn(id);
      if found.None? {
        return Err(InvalidId);
      }
      if threads[found.value].value.state != Blocked && threads[found.value].value.state != Sleeping {
        return Err(InvalidState);
      }
      SetState(found.value, Ready);
      return Ok(());
    }

    method CloseFd(id: nat, fd: nat) returns (r: Result<(), Error>)
      requires Fit()
      modifies processes
      ensures Done(r, View()) == ProcessTable.CloseFd(old(View()), id, fd)
    {
      if fd >= MAX_FDS {
        return Err(InvalidFd);
      }
      var found := FindIn(id);
      if found.None? {
        return Err(InvalidId);
      }
      var fds := processes[found.value].value.fds;
      if fd >= |fds| || fds[fd].None? {
        return Err(InvalidFd);
      }
      processes[found.value] := Some(processes[found.value].value.(fds := fds[fd := None]));
      return Ok(());
    }
  }
}
