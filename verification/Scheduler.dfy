/** The tick scheduler of `src/sched.rs`: whichever task has the smallest key runs for one tick. */
module Scheduler {
  import opened Common

  const MAX_TASKS := 16
  const BASE_SLICE := 4
  const INTERACTIVE_SLICE := 2

  datatype State = Ready | Sleeping | Finished

  datatype Task = Task(id: nat, weight: nat, latency: nat, vruntime: nat, deadline: nat, burst: nat, state: State)

  function NewTask(id: nat, weight: nat, latency: nat): Task { Task(id, weight, latency, 0, 0, 0, Ready) }

  function SliceFor(latency: nat): (s: nat)
    ensures INTERACTIVE_SLICE <= s <= BASE_SLICE
  {
    Max(BASE_SLICE - Min(latency, 3), INTERACTIVE_SLICE)
  }

  function Key(task: Task): nat { task.deadline + task.burst / 2 }

  /** A task after running for some time. */
  function Charged(task: Task, runtime: nat, slept: bool): Task
    requires task.weight > 0
  {
    var vruntime := Saturate(task.vruntime + Saturate(runtime * 1024) / task.weight);
    var burst := if slept then task.burst / 2 else Saturate(task.burst + runtime);
    task.(vruntime := vruntime, burst := burst, deadline := vruntime + SliceFor(task.latency) + burst / 4)
  }

  predicate Eligible(task: Task) { task.state == Ready && Key(task) < U64_MAX }

  /** The first of the least keys among the first `n` tasks. */
  function Best(tasks: seq<Task>, n: nat): (r: Option<nat>)
    requires n <= |tasks|
    ensures r.None? ==> forall j :: 0 <= j < n ==> !Eligible(tasks[j])
    ensures r.Some? ==>
              && r.value < n && Eligible(tasks[r.value])
              && (forall j :: 0 <= j < n && Eligible(tasks[j]) ==> Key(tasks[r.value]) <= Key(tasks[j]))
              && (forall j :: 0 <= j < r.value && Eligible(tasks[j]) ==> Key(tasks[r.value]) < Key(tasks[j]))
  {
    if n == 0 then None
    else
      var before := Best(tasks, n - 1);
      var task := tasks[n - 1];
      if Eligible(task) && (before.None? || Key(task) < Key(tasks[before.value])) then Some(n - 1) else before
  }

  function Pick(tasks: seq<Task>): Option<nat> {
    match Best(tasks, |tasks|)
    case None => None
    case Some(i) => Some(tasks[i].id)
  }

  /** The first task with this id. */
  function IndexOf(tasks: seq<Task>, id: nat, from: nat): (r: Option<nat>)
    requires from <= |tasks|
    ensures r.Some? ==> from <= r.value < |tasks| && tasks[r.value].id == id
    ensures r.None? ==> forall j :: from <= j < |tasks| ==> tasks[j].id != id
    decreases |tasks| - from
  {
    if from == |tasks| then None else if tasks[from].id == id then Some(from) else IndexOf(tasks, id, from + 1)
  }

  predicate Weighted(tasks: seq<Task>) { forall i :: 0 <= i < |tasks| ==> tasks[i].weight > 0 }

  function Charge(tasks: seq<Task>, id: nat, runtime: nat, slept: bool): (r: seq<Task>)
    requires Weighted(tasks)
    ensures |r| == |tasks| && Weighted(r)
  {
    match IndexOf(tasks, id, 0)
    case None => tasks
    case Some(i) => tasks[i := Charged(tasks[i], runtime, slept)]
  }

  /** The scheduler between ticks: its tasks and the one that runs next. */
  datatype Queue = Queue(tasks: seq<Task>, current: Option<nat>)

  function Tick(q: Queue): (r: Queue)
    requires Weighted(q.tasks)
    ensures |r.tasks| == |q.tasks| && Weighted(r.tasks)
  {
    var tasks := if q.current.Some? then Charge(q.tasks, q.current.value, 1, false) else q.tasks;
    Queue(tasks, Pick(tasks))
  }

  // ------------------------------------------------------------------ keys as functions of charged ticks

  /** As many ticks as no 64-bit sum of the scheduler can overflow in. */
  const MAX_TICKS := 0x20_0000_0000_0000

  /** What one tick adds to a task's virtual run time. */
  function Rate(task: Task): (r: nat)
    requires task.weight > 0
    ensures r <= 1024 && (task.weight <= 1024 ==> r >= 1)
  {
    MulLe(1, task.weight, 1024 / task.weight);
    1024 / task.weight
  }

  /** The key of a task that was charged `n` ticks. */
  function KeyAfter(task: Task, n: nat): nat
    requires task.weight > 0
  {
    n * Rate(task) + SliceFor(task.latency) + n / 4 + n / 2
  }

  lemma KeyGrows(task: Task, m: nat, n: nat)
    requires task.weight > 0 && m <= n
    ensures KeyAfter(task, m) <= KeyAfter(task, n)
  {
    MulLe(m, n, Rate(task));
  }

  lemma KeyIsLarge(task: Task, n: nat)
    requires task.weight > 0
    ensures n / 2 <= KeyAfter(task, n) <= 1026 * n + BASE_SLICE
  {
    MulLe(0, n, Rate(task));
    MulLe(Rate(task), 1024, n);
  }

  /** A ready task whose counters are those of `burst` charged ticks. */
  predicate Counted(task: Task) {
    && task.weight > 0 && task.state == Ready && task.burst <= MAX_TICKS
    && task.vruntime == task.burst * Rate(task)
    && task.deadline == task.vruntime + SliceFor(task.latency) + task.burst / 4
  }

  lemma CountedKey(task: Task)
    requires Counted(task)
    ensures Key(task) == KeyAfter(task, task.burst) && Eligible(task)
  {
    KeyIsLarge(task, task.burst);
  }

  lemma ChargedCounts(task: Task)
    requires Counted(task) && task.burst < MAX_TICKS
    ensures var c := Charged(task, 1, false);
            && Counted(c) && c.burst == task.burst + 1
            && c.id == task.id && c.weight == task.weight && c.latency == task.latency
  {
    Distribute(task.burst, 1, Rate(task));
    MulLe(Rate(task), 1024, task.burst + 1);
  }

  // ------------------------------------------------------------------ fairness

  function TotalBurst(tasks: seq<Task>): nat {
    if tasks == [] then 0 else TotalBurst(tasks[..|tasks| - 1]) + tasks[|tasks| - 1].burst
  }

  predicate Distinct(tasks: seq<Task>) { forall i, j :: 0 <= i < j < |tasks| ==> tasks[i].id != tasks[j].id }

  /** The key a task had before its last charge is no greater than the key another has now. */
  predicate NoneWaitsLonger(a: Task, b: Task)
    requires a.weight > 0
  {
    a.burst > 0 ==> KeyAfter(a, a.burst - 1) <= Key(b)
  }

  ghost predicate Fair(q: Queue, ticks: nat) {
    && |q.tasks| > 0 && Distinct(q.tasks) && ticks <= MAX_TICKS && TotalBurst(q.tasks) == ticks
    && (forall i :: 0 <= i < |q.tasks| ==> Counted(q.tasks[i]) && q.tasks[i].burst <= ticks)
    && (forall i, j :: 0 <= i < |q.tasks| && 0 <= j < |q.tasks| ==> NoneWaitsLonger(q.tasks[i], q.tasks[j]))
    && q.current == Pick(q.tasks)
  }

  /** A queue to which new tasks with distinct ids were added before the first tick. */
  ghost predicate Fresh(q: Queue) {
    && 0 < |q.tasks| <= MAX_TASKS && Distinct(q.tasks) && q.current == Pick(q.tasks)
    && forall i :: 0 <= i < |q.tasks| ==>
         && q.tasks[i].weight > 0 && q.tasks[i].state == Ready && q.tasks[i].vruntime == 0 && q.tasks[i].burst == 0
         && q.tasks[i].deadline == SliceFor(q.tasks[i].latency)
  }

  lemma {:induction false} NoBurst(tasks: seq<Task>)
    requires forall i :: 0 <= i < |tasks| ==> tasks[i].burst == 0
    ensures TotalBurst(tasks) == 0
  {
    if tasks != [] {
      NoBurst(tasks[..|tasks| - 1]);
    }
  }

  lemma FreshIsFair(q: Queue)
    requires Fresh(q)
    ensures Fair(q, 0)
  {
    NoBurst(q.tasks);
  }

  lemma {:induction false} TotalAfter(tasks: seq<Task>, i: nat, task: Task)
    requires i < |tasks|
    ensures TotalBurst(tasks[i := task]) == TotalBurst(tasks) - tasks[i].burst + task.burst
    decreases |tasks|
  {
    var last := |tasks| - 1;
    if i < last {
      TotalAfter(tasks[..last], i, task);
      assert tasks[i := task][..last] == tasks[..last][i := task];
    } else {
      assert tasks[i := task][..last] == tasks[..last];
    }
  }

  /** Whichever task runs has the least key of all. */
  lemma PickIsLeast(tasks: seq<Task>) returns (c: nat)
    requires |tasks| > 0 && Distinct(tasks) && forall i :: 0 <= i < |tasks| ==> Counted(tasks[i])
    ensures c < |tasks| && Pick(tasks) == Some(tasks[c].id) && IndexOf(tasks, tasks[c].id, 0) == Some(c)
    ensures forall j :: 0 <= j < |tasks| ==> Key(tasks[c]) <= Key(tasks[j])
  {
    forall i | 0 <= i < |tasks| ensures Eligible(tasks[i]) { CountedKey(tasks[i]); }
    c := Best(tasks, |tasks|).value;
  }

  /** Charging whichever task has the least key keeps it true of a pair that neither waits longer. */
  lemma PairStaysFair(tasks: seq<Task>, c: nat, after: Task, i: nat, j: nat)
    requires c < |tasks| && i < |tasks| && j < |tasks| && Counted(tasks[c]) && Counted(after) && tasks[i].weight > 0
    requires after.burst == tasks[c].burst + 1 && after.weight == tasks[c].weight && after.latency == tasks[c].latency
    requires Key(tasks[c]) <= Key(tasks[j]) && NoneWaitsLonger(tasks[i], tasks[j])
    ensures NoneWaitsLonger(tasks[c := after][i], tasks[c := after][j])
  {
    var before := tasks[c];
    CountedKey(before);
    CountedKey(after);
    KeyGrows(before, before.burst, after.burst);
    assert Key(after) >= Key(before) && KeyAfter(after, before.burst) == Key(before);
  }

  lemma TickCharges(q: Queue) returns (c: nat)
    requires |q.tasks| > 0 && Distinct(q.tasks) && Weighted(q.tasks) && q.current == Pick(q.tasks)
    requires forall i :: 0 <= i < |q.tasks| ==> Counted(q.tasks[i])
    ensures c < |q.tasks| && forall j :: 0 <= j < |q.tasks| ==> Key(q.tasks[c]) <= Key(q.tasks[j])
    ensures Tick(q).tasks == q.tasks[c := Charged(q.tasks[c], 1, false)]
  {
    c := PickIsLeast(q.tasks);
  }

  lemma TickIsFair(q: Queue, ticks: nat)
    requires Fair(q, ticks) && ticks < MAX_TICKS && Weighted(q.tasks)
    ensures Fair(Tick(q), ticks + 1)
  {
    var c := TickCharges(q);
    var after, tasks := Charged(q.tasks[c], 1, false), Tick(q).tasks;
    ChargedCounts(q.tasks[c]);
    TotalAfter(q.tasks, c, after);
    forall i, j | 0 <= i < |tasks| && 0 <= j < |tasks|
      ensures NoneWaitsLonger(tasks[i], tasks[j])
    {
      PairStaysFair(q.tasks, c, after, i, j);
    }
  }

  /** The queue at each tick of a run. */
  ghost predicate IsRun(queues: seq<Queue>) {
    && |queues| > 0 && Fresh(queues[0])
    && forall n: nat :: n + 1 < |queues| ==> Follows(queues[n], queues[n + 1])
  }

  predicate Follows(q: Queue, r: Queue) { Weighted(q.tasks) && r == Tick(q) }

  lemma NextIsFair(q: Queue, r: Queue, ticks: nat)
    requires Fair(q, ticks) && ticks < MAX_TICKS && Follows(q, r)
    ensures Fair(r, ticks + 1)
  {
    TickIsFair(q, ticks);
  }

  /** At every tick, the key a task had before its last charge is no greater than any key there is now. */
  lemma {:induction false} FairAtEveryTick(queues: seq<Queue>, n: nat)
    requires IsRun(queues) && n < |queues| && n <= MAX_TICKS
    ensures Fair(queues[n], n)
    decreases n
  {
    if n == 0 {
      FreshIsFair(queues[0]);
    } else {
      FairAtEveryTick(queues, n - 1);
      assert Follows(queues[n - 1], queues[n - 1 + 1]);
      NextIsFair(queues[n - 1], queues[n], n - 1);
    }
  }

  lemma PairIsClose(a: Task, b: Task)
    requires Counted(a) && Counted(b) && a.weight == b.weight <= 1024 && NoneWaitsLonger(a, b)
    ensures a.burst <= b.burst + 2
  {
    CountedKey(b);
    if a.burst > b.burst + 2 {
      KeyGrows(a, b.burst + 2, a.burst - 1);
      Distribute(b.burst, 2, Rate(a));
    }
  }

  /** Tasks of equal weight, at most 1024, are never more than two charged ticks apart. */
  lemma EqualWeightsStayClose(q: Queue, ticks: nat, i: nat, j: nat)
    requires Fair(q, ticks) && i < |q.tasks| && j < |q.tasks|
    requires q.tasks[i].weight == q.tasks[j].weight <= 1024
    ensures q.tasks[i].burst <= q.tasks[j].burst + 2
  {
    PairIsClose(q.tasks[i], q.tasks[j]);
  }

  lemma {:induction false} TotalIsBounded(tasks: seq<Task>, most: nat)
    requires forall i :: 0 <= i < |tasks| ==> tasks[i].burst <= most
    ensures TotalBurst(tasks) <= |tasks| * most
  {
    if tasks != [] {
      TotalIsBounded(tasks[..|tasks| - 1], most);
      Distribute(|tasks| - 1, 1, most);
    }
  }

  lemma PairIsBounded(a: Task, b: Task, m: nat)
    requires Counted(a) && Counted(b) && NoneWaitsLonger(a, b) && b.burst <= m
    ensures a.burst <= 2 * KeyAfter(b, m) + 2
  {
    CountedKey(b);
    KeyGrows(b, b.burst, m);
    if a.burst > 0 {
      KeyIsLarge(a, a.burst - 1);
    }
  }

  /** No task starves, whatever the weights: by a tick that its own key fixes, it has run more than `m` ticks. */
  lemma NoTaskStarves(q: Queue, ticks: nat, j: nat, m: nat)
    requires Fair(q, ticks) && j < |q.tasks|
    requires ticks > |q.tasks| * (2 * KeyAfter(q.tasks[j], m) + 2)
    ensures q.tasks[j].burst > m
  {
    if q.tasks[j].burst <= m {
      var most := 2 * KeyAfter(q.tasks[j], m) + 2;
      forall i | 0 <= i < |q.tasks| ensures q.tasks[i].burst <= most { PairIsBounded(q.tasks[i], q.tasks[j], m); }
      TotalIsBounded(q.tasks, most);
    }
  }
}
