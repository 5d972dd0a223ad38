/** The static runtime of `src/process.rs`: the table and the fields that name what is running. */
module ProcessKernel {
  import opened Common
  import opened ProcessTable
  import opened ProcessStore
  import R = ProcessRuntime

  class Kernel {
    const table: Store
    var initThread: Option<nat>
    var currentProcess: Option<nat>
    var currentThread: Option<nat>

    ghost function View(): R.Runtime
      reads this, table.processes, table.processGenerations, table.threads, table.threadGenerations
    {
      R.Runtime(table.View(), initThread, currentProcess, currentThread)
    }

    ghost predicate Good()
      reads this, table.processes, table.processGenerations, table.threads, table.threadGenerations
    {
      table.Fit() && R.RuntimeGood(View())
    }

    constructor ()
      ensures Good() && Some(View()) == R.InitRuntime()
      ensures fresh(table.processes) && fresh(table.processGenerations)
      ensures fresh(table.threads) && fresh(table.threadGenerations)
    {
      var store := new Store();
      R.InitIsGood();
      var made := store.CreateInit();
      var (process, thread) := made.value;
      var switched := store.SwitchTo(None, thread);
      table, initThread, currentProcess, currentThread := store, Some(thread), Some(process), Some(thread);
    }

    /** Switches, and makes the thread and its owner current. */
    method SwitchCurrent(from: Option<nat>, onto: nat) returns (r: Result<(), Error>)
      requires table.Fit()
      modifies `currentProcess, `currentThread, table.threads
      ensures R.Called(r, View()) == R.SwitchCurrent(old(View()), from, onto)
    {
      r := table.SwitchTo(from, onto);
      if r.Ok? {
        currentThread := Some(onto);
        var k := table.FindThreadIn(onto);
        if k.None? {
          return Err(InvalidId);
        }
        currentProcess := table.threads[k.value].value.process;
      }
    }

    method SpawnCurrent() returns (r: Result<(nat, nat), Error>)
      requires Good()
      modifies table.processes, table.threads
      ensures Good() && R.Called(r, View()) == R.SpawnCurrent(old(View()))
    {
      R.SpawnKeeps(View());
      if currentProcess.None? {
        return Err(InvalidState);
      }
      r := table.SpawnChild(currentProcess.value);
    }

    method SwitchToUser(process: nat, thread: nat) returns (r: Result<(), Error>)
      requires Good()
      modifies `currentProcess, `currentThread, table.threads
      ensures Good() && R.Called(r, View()) == R.SwitchToUser(old(View()), process, thread)
    {
      R.SwitchToUserKeeps(View(), process, thread);
      if currentThread.None? {
        return Err(InvalidState);
      }
      var k := table.FindThreadIn(thread);
      if k.None? {
        return Err(InvalidId);
      }
      var th := table.threads[k.value].value;
      if th.process != Some(process) || th.kind != User {
        return Err(InvalidState);
      }
      r := SwitchCurrent(currentThread, thread);
    }

    method RestoreInit() returns (r: Result<(), Error>)
      requires Good()
      modifies `currentProcess, `currentThread, table.threads
      ensures Good() && R.Called(r, View()) == R.RestoreInit(old(View()))
    {
      R.RestoreInitKeeps(View());
      if currentThread.Some? || initThread.None? {
        return Err(InvalidState);
      }
      r := table.SwitchTo(None, initThread.value);
      if r.Ok? {
        currentThread, currentProcess := initThread, Some(INIT);
      }
    }

    method ExitCurrent(status: int) returns (r: Result<(), Error>)
      requires Good()
      modifies `currentProcess, `currentThread, table.processes, table.threads
      ensures Good() && R.Called(r, View()) == R.ExitCurrent(old(View()), status)
    {
      R.ExitKeeps(View(), status);
      if currentProcess.None? || currentThread.None? {
        return Err(InvalidState);
      }
      if currentProcess.value == INIT {
        var k := table.FindThreadIn(currentThread.value);
        if k.None? {
          return Err(InvalidId);
        }
        table.SetState(k.value, Exited);
      } else {
        r := table.Exit(currentProcess.value, status);
        if r.Err? {
          return;
        }
      }
      currentProcess, currentThread := None, None;
      return Ok(());
    }

    /** Good again unless the call ran out of generations. */
    method WaitCurrent(child: Option<nat>) returns (r: Result<(nat, int), Error>)
      requires Good()
      modifies table.processes, table.processGenerations, table.threads, table.threadGenerations
      ensures R.Called(r, View()) == R.WaitCurrent(old(View()), child)
      ensures r != Err(GenerationExhausted) ==> Good()
    {
      ghost var before := View();
      if currentProcess.None? {
        return Err(InvalidState);
      }
      r := table.Wait(currentProcess.value, child);
      if r != Err(GenerationExhausted) {
        R.WaitKeeps(before, child);
      }
    }

    method CloseCurrent(fd: nat) returns (r: Result<(), Error>)
      requires Good()
      modifies table.processes
      ensures Good() && R.Called(r, View()) == R.CloseCurrent(old(View()), fd)
    {
      R.CloseKeeps(View(), fd);
      if currentProcess.None? {
        return Err(InvalidState);
      }
      r := table.CloseFd(currentProcess.value, fd);
    }

    /** The first ready thread. */
    method Pick() returns (r: Option<nat>)
      requires table.Fit()
      ensures r == PickReady(table.View())
    {
      for k := 0 to table.threads.Length
        invariant PickFrom(table.View(), 0) == PickFrom(table.View(), k)
      {
        if table.threads[k].Some? && table.threads[k].value.state == Ready {
          return Some(table.threads[k].value.id);
        }
      }
      return None;
    }

    method YieldCurrent() returns (r: Result<(), Error>)
      requires Good()
      modifies `currentProcess, `currentThread, table.threads
      ensures Good() && R.Called(r, View()) == R.YieldCurrent(old(View()))
    {
      R.YieldKeeps(View());
      if currentThread.None? {
        return Err(InvalidState);
      }
      var next := Pick();
      if next.None? || (currentProcess != Some(INIT) && initThread == next) {
        return Ok(());
      }
      r := SwitchCurrent(currentThread, next.value);
    }

    method SleepCurrent() returns (r: Result<(), Error>)
      requires Good()
      modifies `currentProcess, `currentThread, table.threads
      ensures Good() && R.Called(r, View()) == R.SleepCurrent(old(View()))
    {
      R.SleepKeeps(View());
      if currentThread.None? {
        return Err(InvalidState);
      }
      var current := currentThread.value;
      r := table.BlockThread(current, true);
      if r.Err? {
        return;
      }
      var next := Pick();
      if next.None? {
        r := table.WakeThread(current);
        if r.Ok? {
          r := table.SwitchTo(None, current);
        }
        return;
      }
      currentThread, currentProcess := None, None;
      r := SwitchCurrent(None, next.value);
    }
  }
}
