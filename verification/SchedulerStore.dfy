/** The scheduler's task array, its clock and its current task. */
module SchedulerStore {
  import opened Common
  import opened Scheduler

  class Store {
    const tasks: array<Task>
    var len: nat
    var clock: nat
    var current: Option<nat>
    var timerTicks: nat

    ghost predicate Valid()
      reads this, tasks
    {
      tasks.Length == MAX_TASKS && len <= MAX_TASKS && Weighted(tasks[..len])
    }

    ghost function View(): Queue
      requires len <= tasks.Length
      reads this, tasks
    {
      Queue(tasks[..len], current)
    }

    constructor ()
      ensures Valid() && fresh(tasks) && len == 0 && clock == 0 && current == None && timerTicks == 0
    {
      tasks := new Task[MAX_TASKS](_ => NewTask(0, 1, 0));
      len, clock, current, timerTicks := 0, 0, None, 0;
    }

    method Add(task: Task) returns (ok: bool)
      requires Valid()
      modifies `len, tasks
      ensures Valid() && ok == (old(len) < MAX_TASKS && task.weight > 0)
      ensures if ok then tasks[..len] == old(tasks[..len]) + [task.(deadline := clock + SliceFor(task.latency))]
              else tasks[..len] == old(tasks[..len])
    {
      if len == MAX_TASKS || task.weight == 0 {
        return false;
      }
      tasks[len] := task.(deadline := clock + SliceFor(task.latency));
      len := len + 1;
      assert tasks[..len] == old(tasks[..len]) + [tasks[len - 1]];
      return true;
    }

    /** Finds the least key in one pass. */
    method PickNext() returns (best: Option<nat>)
      requires Valid()
      ensures best == Pick(tasks[..len])
    {
      best := None;
      var bestKey := U64_MAX;
      ghost var at: Option<nat> := None;
      for k := 0 to len
        invariant at == Best(tasks[..len], k)
        invariant match at {
                    case None => best == None && bestKey == U64_MAX
                    case Some(i) => best == Some(tasks[i].id) && bestKey == Key(tasks[i])
                  }
      {
        var task := tasks[k];
        assert tasks[..len][k] == task;
        if task.state == Ready {
          var key := task.deadline + task.burst / 2;
          if key < bestKey {
            bestKey, best, at := key, Some(task.id), Some(k);
          }
        }
      }
    }

    method ChargeTask(id: nat, runtime: nat, slept: bool)
      requires Valid()
      modifies `clock, tasks
      ensures Valid() && tasks[..len] == Charge(old(tasks[..len]), id, runtime, slept)
      ensures clock == if IndexOf(old(tasks[..len]), id, 0).Some? then Saturate(old(clock) + runtime) else old(clock)
    {
      ghost var before := tasks[..len];
      for k := 0 to len
        invariant tasks[..len] == before && clock == old(clock)
        invariant IndexOf(before, id, 0) == IndexOf(before, id, k)
      {
        assert tasks[k] == before[k];
        if tasks[k].id == id {
          var task := tasks[k];
          var weighted := Saturate(runtime * 1024) / task.weight;
          task := task.(vruntime := Saturate(task.vruntime + weighted));
          task := task.(burst := if slept then task.burst / 2 else Saturate(task.burst + runtime));
          clock := Saturate(clock + runtime);
          tasks[k] := task.(deadline := task.vruntime + SliceFor(task.latency) + task.burst / 4);
          assert tasks[..len] == before[k := Charged(before[k], runtime, slept)];
          return;
        }
      }
    }

    method OnTimerTick()
      requires Valid()
      modifies this, tasks
      ensures Valid() && len == old(len) && View() == Tick(old(View())) && timerTicks == Saturate(old(timerTicks) + 1)
    {
      timerTicks := Saturate(timerTicks + 1);
      if current.Some? {
        ChargeTask(current.value, 1, false);
      }
      current := PickNext();
    }

    /** Starts over with the kernel's two tasks. */
    method InitRuntime()
      requires Valid()
      modifies this, tasks
      ensures Valid() && Fresh(View()) && len == 2 && timerTicks == 0
    {
      len, clock := 0, 0;
      var first := Add(NewTask(1, 1024, 3));
      var second := Add(NewTask(2, 1024, 1));
      current := PickNext();
      timerTicks := 0;
    }
  }
}
