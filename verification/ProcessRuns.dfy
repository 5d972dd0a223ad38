/** Whole runs of the process table: what they keep, and what becomes of ids and exit statuses. */
module ProcessRuns {
  import opened Common
  import opened ProcessTable
  import opened ProcessInvariant

  datatype Op =
    | DoCreateInit
    | DoSpawn(parent: nat)
    | DoKernelThread
    | DoExit(id: nat, status: int)
    | DoWait(parent: nat, child: Option<nat>)
    | DoOpenFd(id: nat, openFile: nat, readable: bool, writable: bool)
    | DoCloseFd(id: nat, fd: nat)
    | DoSetCloseOnExec(id: nat, fd: nat, enabled: bool)
    | DoCloseOnExec(id: nat)
    | DoBlock(id: nat, sleeping: bool)
    | DoWake(id: nat)
    | DoPreempt(id: nat)
    | DoSwitch(from: Option<nat>, onto: nat)

  datatype Answer =
    | Failed(error: Error)
    | Plain
    | Spawned(process: nat, thread: nat)
    | Started(thread: nat)
    | Delivered(process: nat, status: int)

  function Answered<T>(r: Result<T, Error>): Answer { if r.Ok? then Plain else Failed(r.error) }

  function SpawnAnswer(r: Result<(nat, nat), Error>): Answer {
    if r.Ok? then Spawned(r.value.0, r.value.1) else Failed(r.error)
  }

  function StartAnswer(r: Result<nat, Error>): Answer {
    if r.Ok? then Started(r.value) else Failed(r.error)
  }

  function WaitAnswer(r: Result<(nat, int), Error>): Answer {
    if r.Ok? then Delivered(r.value.0, r.value.1) else Failed(r.error)
  }

  datatype Step = Step(answer: Answer, table: Table)

  function Apply(t: Table, op: Op): Step
    requires Sized(t)
  {
    match op
    case DoCreateInit => var d := CreateInit(t); Step(SpawnAnswer(d.result), d.table)
    case DoSpawn(parent) => var d := SpawnChild(t, parent); Step(SpawnAnswer(d.result), d.table)
    case DoKernelThread => var d := SpawnKernelThread(t); Step(StartAnswer(d.result), d.table)
    case DoExit(id, status) => var d := Exit(t, id, status); Step(Answered(d.result), d.table)
    case DoWait(parent, child) => var d := Wait(t, parent, child); Step(WaitAnswer(d.result), d.table)
    case DoOpenFd(id, f, r, w) => var d := OpenFd(t, id, f, r, w); Step(Answered(d.result), d.table)
    case DoCloseFd(id, fd) => var d := CloseFd(t, id, fd); Step(Answered(d.result), d.table)
    case DoSetCloseOnExec(id, fd, on) => var d := SetCloseOnExec(t, id, fd, on); Step(Answered(d.result), d.table)
    case DoCloseOnExec(id) => var d := CloseOnExec(t, id); Step(Answered(d.result), d.table)
    case DoBlock(id, sleeping) => var d := BlockThread(t, id, sleeping); Step(Answered(d.result), d.table)
    case DoWake(id) => var d := WakeThread(t, id); Step(Answered(d.result), d.table)
    case DoPreempt(id) => var d := PreemptThread(t, id); Step(Answered(d.result), d.table)
    case DoSwitch(from, onto) => var d := SwitchTo(t, from, onto); Step(Answered(d.result), d.table)
  }

  // ------------------------------------------------------------------ ids that were used up

  /** The slot has moved on to a later generation than this id's. */
  predicate Retired(t: Table, id: nat) {
    1 <= Low(id) <= MAX_PROCESSES && High(id) < GenerationAt(t.processGenerations, Low(id) - 1)
  }

  lemma RetiredIsRefused(t: Table, id: nat)
    requires Retired(t, id)
    ensures FindProcess(t, id).None?
  {
  }

  /** The process under this id is dead and holds this status. */
  predicate Owes(t: Table, id: nat, status: int) {
    var s := FindProcess(t, id);
    s.Some? && ProcessIn(t, s.value).value.state == Zombie && ProcessIn(t, s.value).value.exitStatus == Some(status)
  }

  /** The process under this id will not run again. */
  predicate Spent(t: Table, id: nat) {
    || Retired(t, id)
    || (FindProcess(t, id).Some? && ProcessIn(t, FindProcess(t, id).value).value.state == Zombie)
  }

  /** What a step does to one id: used-up ids stay used up, and a debt is old or comes from an exit. */
  ghost predicate Fated(t: Table, u: Table, op: Op, answer: Answer, id: nat) {
    && (Retired(t, id) ==> Retired(u, id))
    && (Spent(t, id) ==> Spent(u, id))
    && (forall status: int :: Owes(u, id, status) ==>
        Owes(t, id, status) || (op == DoExit(id, status) && answer == Plain))
  }

  // ------------------------------------------------------------------ one step

  lemma MildStep(t: Table, u: Table, op: Op, answer: Answer, id: nat)
    requires Good(t) && Mild(t, u)
    ensures Good(u) && Fated(t, u, op, answer, id)
  {
    MildKeeps(t, u);
    MildFinds(t, u, id);
    if FindProcess(t, id).Some? {
      var s := FindProcess(t, id).value;
      assert SameButFds(ProcessIn(t, s), ProcessIn(u, s));
    }
  }

  lemma SameIsMild(t: Table)
    requires Good(t)
    ensures Mild(t, t)
  {
    forall i: nat ensures SameButFds(ProcessIn(t, i), ProcessIn(t, i)) {}
  }

  lemma AddsStep(t: Table, s: nat, parent: Option<nat>, op: Op, id: nat)
    requires Good(t) && s < MAX_PROCESSES && t.processes[s].None?
    requires Fathered(t, s, NewProcess(0, parent))
    ensures var d := CreateAt(t, s, parent);
            && Good(d.table) && Fated(t, d.table, op, SpawnAnswer(d.result), id)
            && (d.result.Ok? ==> FindProcess(t, d.result.value.0).None? && !Spent(t, d.result.value.0))
  {
    match Vacant(t.threads, 0)
    case None =>
    case Some(k) =>
      WithProcessAdds(t, s, k, parent);
      var u := WithProcess(t, s, k, parent);
      AddsKeeps(t, u, s, k, u.processes[s].value, u.threads[k].value);
      AddsFinds(t, u, s, k, u.processes[s].value, u.threads[k].value, id);
  }

  lemma CreateInitStep(t: Table, id: nat)
    requires Good(t)
    ensures var d := CreateInit(t);
            && Good(d.table) && Fated(t, d.table, DoCreateInit, SpawnAnswer(d.result), id)
            && (d.result.Ok? ==> FindProcess(t, d.result.value.0).None? && !Spent(t, d.result.value.0))
  {
    if t.processes[0].None? {
      AddsStep(t, 0, None, DoCreateInit, id);
    }
  }

  lemma SpawnStep(t: Table, parent: nat, id: nat)
    requires Good(t)
    ensures var d := SpawnChild(t, parent);
            && Good(d.table) && Fated(t, d.table, DoSpawn(parent), SpawnAnswer(d.result), id)
            && (d.result.Ok? ==> FindProcess(t, d.result.value.0).None? && !Spent(t, d.result.value.0))
  {
    var p := FindProcess(t, parent);
    if p.Some? && t.processes[p.value].value.state == Running && Vacant(t.processes, 0).Some? {
      assert ParentOk(t, p.value);
      AddsStep(t, Vacant(t.processes, 0).value, Some(parent), DoSpawn(parent), id);
    }
  }

  lemma KernelStep(t: Table, id: nat)
    requires Good(t)
    ensures var d := SpawnKernelThread(t);
            Good(d.table) && Fated(t, d.table, DoKernelThread, StartAnswer(d.result), id)
  {
    KernelKeeps(t);
    var u := SpawnKernelThread(t).table;
    assert FindProcess(u, id) == FindProcess(t, id);
  }

  lemma ExitStep(t: Table, id: nat, status: int, other: nat)
    requires Good(t)
    ensures var d := Exit(t, id, status);
            && Good(d.table) && Fated(t, d.table, DoExit(id, status), Answered(d.result), other)
            && (d.result.Ok? ==> !Spent(t, id) && Spent(d.table, id))
  {
    if Exit(t, id, status).result.Ok? {
      var s, u := FindProcess(t, id).value, Exit(t, id, status).table;
      ExitExits(t, id, status);
      ExitsKeeps(t, u, s, id, status);
      ExitsFinds(t, u, s, id, status);
      RetiredIsNotFound(t, id);
    }
  }

  lemma RetiredIsNotFound(t: Table, id: nat)
    requires FindProcess(t, id).Some?
    ensures !Retired(t, id)
  {
  }

  lemma WaitForStep(t: Table, child: nat, op: Op, id: nat)
    requires Good(t) && FindProcess(t, child).Some? && t.processes[FindProcess(t, child).value].value.state == Zombie
    requires WaitFor(t, child).result != Err(GenerationExhausted)
    ensures var d := WaitFor(t, child);
            && Good(d.table) && Fated(t, d.table, op, WaitAnswer(d.result), id)
            && d.result.Ok? && d.result.value.0 == child && Owes(t, child, d.result.value.1) && Retired(d.table, child)
            && Drops(t, d.table, FindProcess(t, child).value)
  {
    var s := FindProcess(t, child).value;
    assert ProcessOk(t, s);
    ReapDrops(t, s);
    var u := Reap(t, s).table;
    DropsKeeps(t, u, s);
    DropsFinds(t, u, s, id);
    DropsRetires(t, u, s, id);
    DropsRetires(t, u, s, child);
  }

  lemma DropsRetires(t: Table, u: Table, s: nat, id: nat)
    requires Good(t) && Drops(t, u, s)
    ensures Retired(t, id) ==> Retired(u, id)
    ensures id == ProcessIn(t, s).value.id ==> Retired(u, id)
  {
    assert ProcessOk(t, s);
    if 1 <= Low(id) <= MAX_PROCESSES {
      assert GenerationAt(u.processGenerations, Low(id) - 1) >= GenerationAt(t.processGenerations, Low(id) - 1);
    }
    assert GenerationAt(u.processGenerations, s) == GenerationAt(t.processGenerations, s) + 1;
  }

  lemma WaitStep(t: Table, parent: nat, child: Option<nat>, id: nat)
    requires Good(t) && Wait(t, parent, child).result != Err(GenerationExhausted)
    ensures var d := Wait(t, parent, child);
            && Good(d.table) && Fated(t, d.table, DoWait(parent, child), WaitAnswer(d.result), id)
            && (d.result.Err? ==> d.table == t)
            && (d.result.Ok? ==>
                  && Owes(t, d.result.value.0, d.result.value.1) && Retired(d.table, d.result.value.0)
                  && Drops(t, d.table, FindProcess(t, d.result.value.0).value))
  {
    var op := DoWait(parent, child);
    if FindProcess(t, parent).Some? {
      if child.Some? {
        var s := FindProcess(t, child.value);
        if s.Some? && IsDeadChild(t.processes[s.value], parent) {
          WaitForStep(t, child.value, op, id);
        }
      } else if FirstDeadChild(t, parent, 0).Some? {
        var s := FirstDeadChild(t, parent, 0).value;
        assert ProcessOk(t, s);
        ProcessIsFound(t, s);
        WaitForStep(t, t.processes[s].value.id, op, id);
      }
    }
  }

  /** Descriptor operations and thread state changes are mild. */
  lemma FdStepIsMild(t: Table, op: Op)
    requires Good(t) && (op.DoOpenFd? || op.DoCloseFd? || op.DoSetCloseOnExec? || op.DoCloseOnExec?)
    ensures Mild(t, Apply(t, op).table)
  {
    SameIsMild(t);
    var found := FindProcess(t, op.id);
    if found.Some? {
      var s := found.value;
      var fds := t.processes[s].value.fds;
      assert ProcessOk(t, s);
      match op
      case DoOpenFd(_, f, r, w) =>
        if t.processes[s].value.state == Running && Vacant(fds, 0).Some? {
          FdsAreMild(t, s, fds[Vacant(fds, 0).value := Some(Fd(f, false, r, w))]);
        }
      case DoCloseFd(_, fd) =>
        if fd < |fds| && fds[fd].Some? { FdsAreMild(t, s, fds[fd := None]); }
      case DoSetCloseOnExec(_, fd, on) =>
        if fd < |fds| && fds[fd].Some? { FdsAreMild(t, s, fds[fd := Some(fds[fd].value.(closeOnExec := on))]); }
      case DoCloseOnExec(_) =>
        FdsAreMild(t, s, Kept(fds));
    }
  }

  lemma StateStepIsMild(t: Table, op: Op)
    requires Good(t) && (op.DoBlock? || op.DoWake? || op.DoPreempt? || op.DoSwitch?)
    ensures Mild(t, Apply(t, op).table)
  {
    SameIsMild(t);
    if op.DoSwitch? {
      if SwitchTo(t, op.from, op.onto).result.Ok? {
        SwitchIsMild(t, op.from, op.onto);
      }
    } else {
      var found := FindThread(t, op.id);
      if found.Some? && StateOf(t, found.value) != Exited {
        StateIsMild(t, found.value, if op.DoBlock? then if op.sleeping then Sleeping else Blocked else Ready);
      }
    }
  }

  /** Every step that does not run out of generations keeps the table good. */
  lemma StepKeeps(t: Table, op: Op, id: nat)
    requires Good(t) && Apply(t, op).answer != Failed(GenerationExhausted)
    ensures var step := Apply(t, op);
            && Good(step.table) && Fated(t, step.table, op, step.answer, id)
            && (step.answer.Spawned? ==> !Spent(t, step.answer.process) && FindProcess(t, step.answer.process).None?)
            && (step.answer.Delivered? ==>
                  Owes(t, step.answer.process, step.answer.status) && Retired(step.table, step.answer.process))
  {
    match op
    case DoCreateInit => CreateInitStep(t, id);
    case DoSpawn(parent) => SpawnStep(t, parent, id);
    case DoKernelThread => KernelStep(t, id);
    case DoExit(p, status) => ExitStep(t, p, status, id);
    case DoWait(parent, child) => WaitStep(t, parent, child, id);
    case DoBlock(_, _) => StateStep(t, op, id);
    case DoWake(_) => StateStep(t, op, id);
    case DoPreempt(_) => StateStep(t, op, id);
    case DoSwitch(_, _) => StateStep(t, op, id);
    case _ => FdStep(t, op, id);
  }

  lemma FdStep(t: Table, op: Op, id: nat)
    requires Good(t) && (op.DoOpenFd? || op.DoCloseFd? || op.DoSetCloseOnExec? || op.DoCloseOnExec?)
    ensures var step := Apply(t, op);
            Good(step.table) && Fated(t, step.table, op, step.answer, id) && (step.answer.Failed? || step.answer.Plain?)
  {
    FdStepIsMild(t, op);
    MildStep(t, Apply(t, op).table, op, Apply(t, op).answer, id);
  }

  lemma StateStep(t: Table, op: Op, id: nat)
    requires Good(t) && (op.DoBlock? || op.DoWake? || op.DoPreempt? || op.DoSwitch?)
    ensures var step := Apply(t, op);
            Good(step.table) && Fated(t, step.table, op, step.answer, id) && (step.answer.Failed? || step.answer.Plain?)
  {
    StateStepIsMild(t, op);
    MildStep(t, Apply(t, op).table, op, Apply(t, op).answer, id);
  }

  // ------------------------------------------------------------------ whole runs

  /** The tables before and after each operation of a run, and the answers. */
  datatype Run = Run(tables: seq<Table>, ops: seq<Op>, answers: seq<Answer>)

  predicate Follows(r: Run, i: nat)
    requires |r.tables| == |r.ops| + 1 && |r.answers| == |r.ops| && i < |r.ops|
  {
    Sized(r.tables[i]) && Apply(r.tables[i], r.ops[i]) == Step(r.answers[i], r.tables[i + 1])
  }

  /** A run from a good table that never reports exhausted generations. */
  ghost predicate CleanRun(r: Run) {
    && |r.tables| == |r.ops| + 1 && |r.answers| == |r.ops| && Good(r.tables[0])
    && (forall i: nat :: i < |r.ops| ==> Follows(r, i))
    && (forall i: nat :: i < |r.ops| ==> r.answers[i] != Failed(GenerationExhausted))
  }

  /** One step of a run, in terms of the run. */
  lemma StepOfRun(t: Table, op: Op, answer: Answer, u: Table, id: nat)
    requires Good(t) && Apply(t, op) == Step(answer, u) && answer != Failed(GenerationExhausted)
    ensures Good(u) && Fated(t, u, op, answer, id)
    ensures answer.Spawned? ==> !Spent(t, answer.process) && FindProcess(t, answer.process).None?
    ensures answer.Delivered? ==> Owes(t, answer.process, answer.status) && Retired(u, answer.process)
  {
    StepKeeps(t, op, id);
  }

  /** Every table of a clean run is good. */
  lemma {:induction false} RunKeepsGood(r: Run, i: nat)
    requires CleanRun(r) && i < |r.tables|
    ensures Good(r.tables[i])
    decreases i
  {
    if i > 0 {
      RunKeepsGood(r, i - 1);
      assert Follows(r, i - 1);
      StepOfRun(r.tables[i - 1], r.ops[i - 1], r.answers[i - 1], r.tables[i], 0);
    }
  }

  lemma StepOf(r: Run, i: nat, id: nat)
    requires CleanRun(r) && i < |r.ops|
    ensures Good(r.tables[i]) && Good(r.tables[i + 1])
            && Fated(r.tables[i], r.tables[i + 1], r.ops[i], r.answers[i], id)
    ensures r.answers[i].Spawned? ==>
              !Spent(r.tables[i], r.answers[i].process) && FindProcess(r.tables[i], r.answers[i].process).None?
    ensures r.answers[i].Delivered? ==>
              && Owes(r.tables[i], r.answers[i].process, r.answers[i].status)
              && Retired(r.tables[i + 1], r.answers[i].process)
  {
    RunKeepsGood(r, i);
    assert Follows(r, i);
    StepOfRun(r.tables[i], r.ops[i], r.answers[i], r.tables[i + 1], id);
  }

  lemma {:induction false} UsedUpStays(r: Run, i: nat, j: nat, id: nat)
    requires CleanRun(r) && i <= j < |r.tables|
    ensures Retired(r.tables[i], id) ==> Retired(r.tables[j], id)
    ensures Spent(r.tables[i], id) ==> Spent(r.tables[j], id)
    decreases j
  {
    if i < j {
      UsedUpStays(r, i, j - 1, id);
      StepOf(r, j - 1, id);
    }
  }

  // ------------------------------------------------------------------ exit statuses

  /** A debt goes back to an exit, unless it was there from the start. */
  lemma {:induction false} DebtComesFromExit(r: Run, j: nat, id: nat, status: int) returns (i: nat)
    requires CleanRun(r) && j < |r.tables| && Owes(r.tables[j], id, status) && !Owes(r.tables[0], id, status)
    ensures i < j && r.ops[i] == DoExit(id, status) && r.answers[i] == Plain
    decreases j
  {
    StepOf(r, j - 1, id);
    if Owes(r.tables[j - 1], id, status) {
      i := DebtComesFromExit(r, j - 1, id, status);
    } else {
      i := j - 1;
    }
  }

  predicate ExitedAt(r: Run, i: nat, id: nat)
    requires i < |r.ops| && |r.answers| == |r.ops|
  {
    r.ops[i].DoExit? && r.ops[i].id == id && r.answers[i] == Plain
  }

  lemma ExitSpends(r: Run, i: nat, id: nat)
    requires CleanRun(r) && i < |r.ops| && ExitedAt(r, i, id)
    ensures !Spent(r.tables[i], id) && Spent(r.tables[i + 1], id)
  {
    RunKeepsGood(r, i);
    assert Follows(r, i);
    ExitStep(r.tables[i], id, r.ops[i].status, id);
  }

  /** A process exits at most once. */
  lemma ExitsOnce(r: Run, i: nat, j: nat, id: nat)
    requires CleanRun(r) && i < j < |r.ops| && ExitedAt(r, i, id)
    ensures !ExitedAt(r, j, id)
  {
    ExitSpends(r, i, id);
    UsedUpStays(r, i + 1, j, id);
    if ExitedAt(r, j, id) {
      ExitSpends(r, j, id);
    }
  }

  /** A delivered status is the one given to the only exit of that process, earlier in the run. */
  lemma DeliveredStatusIsGiven(r: Run, j: nat)
    requires CleanRun(r) && r.tables[0] == NewTable() && j < |r.ops| && r.answers[j].Delivered?
    ensures exists i: nat :: i < j && ExitedAt(r, i, r.answers[j].process) && r.ops[i].status == r.answers[j].status
                             && forall k: nat :: k < |r.ops| && k != i ==> !ExitedAt(r, k, r.answers[j].process)
  {
    var id, status := r.answers[j].process, r.answers[j].status;
    StepOf(r, j, id);
    var i := DebtComesFromExit(r, j, id, status);
    assert ExitedAt(r, i, id);
    forall k: nat | k < |r.ops| && k != i ensures !ExitedAt(r, k, id) {
      if i < k {
        ExitsOnce(r, i, k, id);
      } else if ExitedAt(r, k, id) {
        ExitsOnce(r, k, i, id);
      }
    }
  }
}
