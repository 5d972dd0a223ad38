/** The process table of `src/process.rs`: generation-tagged ids over fixed slots.

    Every operation is a function from the table before to its answer and the table after. Credentials,
    signals, events and accounting are left out.
 */
module ProcessTable {
  import opened Common

  const MAX_PROCESSES := 32
  const MAX_THREADS := 64
  const MAX_PROCESS_THREADS := 4
  const MAX_FDS := 32
  const INIT: nat := 1

  datatype Error =
    | InvalidId
    | InvalidState
    | ProcessCapacity
    | ThreadCapacity
    | FdCapacity
    | InvalidFd
    | NoChild
    | GenerationExhausted

  datatype ProcessState = Creating | Running | Exiting | Zombie

  datatype ThreadState = Created | Ready | OnCpu | Blocked | Sleeping | Exited

  datatype Kind = Kernel | User

  datatype Fd = Fd(openFile: nat, closeOnExec: bool, readable: bool, writable: bool)

  datatype Process = Process(
    id: nat, parent: Option<nat>, state: ProcessState, exitStatus: Option<int>, threads: seq<Option<nat>>,
    fds: seq<Option<Fd>>)

  datatype Thread = Thread(id: nat, process: Option<nat>, state: ThreadState, kind: Kind)

  datatype Table = Table(
    processes: seq<Option<Process>>, processGenerations: seq<nat>, threads: seq<Option<Thread>>,
    threadGenerations: seq<nat>)

  datatype Done<T> = Done(result: Result<T, Error>, table: Table)

  // ------------------------------------------------------------------ ids

  function Low(id: nat): nat { id % U16_LIMIT }

  function High(id: nat): nat { id / U16_LIMIT }

  function Pack(slot: nat, generation: nat): (id: nat)
    requires slot + 1 < U16_LIMIT
    ensures Low(id) == slot + 1 && High(id) == generation
  {
    DivisionUnique(generation * U16_LIMIT + slot + 1, U16_LIMIT, generation, slot + 1);
    generation * U16_LIMIT + slot + 1
  }

  lemma SameId(a: nat, b: nat)
    requires Low(a) == Low(b) && High(a) == High(b)
    ensures a == b
  {
  }

  // ------------------------------------------------------------------ looking records up

  function ProcessIn(t: Table, s: nat): Option<Process> { if s < |t.processes| then t.processes[s] else None }

  function ThreadIn(t: Table, k: nat): Option<Thread> { if k < |t.threads| then t.threads[k] else None }

  function GenerationAt(generations: seq<nat>, s: nat): nat { if s < |generations| then generations[s] else 0 }

  /** The slot of a process the table accepts under this id. */
  function FindProcess(t: Table, id: nat): (r: Option<nat>)
    ensures r.Some? ==> r.value < MAX_PROCESSES && ProcessIn(t, r.value).Some? && ProcessIn(t, r.value).value.id == id
  {
    var low := Low(id);
    if low == 0 || low > MAX_PROCESSES then None
    else if GenerationAt(t.processGenerations, low - 1) != High(id) then None
    else if ProcessIn(t, low - 1).Some? && ProcessIn(t, low - 1).value.id == id then Some(low - 1)
    else None
  }

  function FindThread(t: Table, id: nat): (r: Option<nat>)
    ensures r.Some? ==> r.value < MAX_THREADS && ThreadIn(t, r.value).Some? && ThreadIn(t, r.value).value.id == id
  {
    var low := Low(id);
    if low == 0 || low > MAX_THREADS then None
    else if GenerationAt(t.threadGenerations, low - 1) != High(id) then None
    else if ThreadIn(t, low - 1).Some? && ThreadIn(t, low - 1).value.id == id then Some(low - 1)
    else None
  }

  /** The first free position. */
  function Vacant<T>(s: seq<Option<T>>, from: nat): (r: Option<nat>)
    requires from <= |s|
    ensures r.Some? ==> from <= r.value < |s| && s[r.value].None? && forall k :: from <= k < r.value ==> s[k].Some?
    ensures r.None? ==> forall k :: from <= k < |s| ==> s[k].Some?
    decreases |s| - from
  {
    if from == |s| then None else if s[from].None? then Some(from) else Vacant(s, from + 1)
  }

  function SetProcess(t: Table, s: nat, p: Option<Process>): Table
    requires s < |t.processes|
  {
    t.(processes := t.processes[s := p])
  }

  function SetThread(t: Table, k: nat, th: Option<Thread>): Table
    requires k < |t.threads|
  {
    t.(threads := t.threads[k := th])
  }

  // ------------------------------------------------------------------ creating

  function StandardFds(): seq<Option<Fd>> {
    [Some(Fd(0, false, true, false)), Some(Fd(1, false, false, true)), Some(Fd(2, false, false, true))]
    + seq(MAX_FDS - 3, _ => None)
  }

  function NewProcess(id: nat, parent: Option<nat>): Process {
    Process(id, parent, Creating, None, seq(MAX_PROCESS_THREADS, _ => None), StandardFds())
  }

  predicate Sized(t: Table) {
    && |t.processes| == MAX_PROCESSES && |t.processGenerations| == MAX_PROCESSES
    && |t.threads| == MAX_THREADS && |t.threadGenerations| == MAX_THREADS
  }

  /** Puts a running process with one ready thread into free slots. */
  function WithProcess(t: Table, s: nat, k: nat, parent: Option<nat>): Table
    requires Sized(t) && s < MAX_PROCESSES && k < MAX_THREADS
  {
    var pid, tid := Pack(s, t.processGenerations[s]), Pack(k, t.threadGenerations[k]);
    var record := NewProcess(pid, parent);
    t.(processes := t.processes[s := Some(record.(state := Running, threads := record.threads[0 := Some(tid)]))],
       threads := t.threads[k := Some(Thread(tid, Some(pid), Ready, User))])
  }

  /** Both creations: the process is put in its slot, and taken out again when no thread slot is free. */
  function CreateAt(t: Table, s: nat, parent: Option<nat>): Done<(nat, nat)>
    requires Sized(t) && s < MAX_PROCESSES && t.processes[s].None?
  {
    match Vacant(t.threads, 0)
    case None => Done(Err(ThreadCapacity), t)
    case Some(k) =>
      Done(Ok((Pack(s, t.processGenerations[s]), Pack(k, t.threadGenerations[k]))), WithProcess(t, s, k, parent))
  }

  function CreateInit(t: Table): Done<(nat, nat)>
    requires Sized(t)
  {
    if t.processes[0].Some? then Done(Err(InvalidState), t) else CreateAt(t, 0, None)
  }

  function SpawnChild(t: Table, parent: nat): Done<(nat, nat)>
    requires Sized(t)
  {
    match FindProcess(t, parent)
    case None => Done(Err(InvalidId), t)
    case Some(p) =>
      if t.processes[p].value.state != Running then Done(Err(InvalidState), t)
      else
        match Vacant(t.processes, 0)
        case None => Done(Err(ProcessCapacity), t)
        case Some(s) => CreateAt(t, s, Some(parent))
  }

  function SpawnKernelThread(t: Table): Done<nat>
    requires Sized(t)
  {
    match Vacant(t.threads, 0)
    case None => Done(Err(ThreadCapacity), t)
    case Some(k) =>
      var tid := Pack(k, t.threadGenerations[k]);
      Done(Ok(tid), SetThread(t, k, Some(Thread(tid, None, Ready, Kernel))))
  }

  // ------------------------------------------------------------------ exiting and waiting

  function ThreadAfterExit(th: Option<Thread>, id: nat): Option<Thread> {
    if th.Some? && th.value.process == Some(id) then Some(th.value.(state := Exited)) else th
  }

  function ProcessAfterExit(p: Option<Process>, id: nat): Option<Process> {
    if p.Some? && p.value.parent == Some(id) then Some(p.value.(parent := Some(INIT))) else p
  }

  /** A process that has exited, its own parent field treated like everyone's. */
  function Buried(p: Process, status: int): Process {
    p.(state := Zombie, exitStatus := Some(status), fds := seq(MAX_FDS, _ => None))
  }

  function WithExit(t: Table, s: nat, id: nat, status: int): Table
    requires Sized(t) && s < MAX_PROCESSES && t.processes[s].Some?
  {
    var buried := t.processes[s := Some(Buried(t.processes[s].value, status))];
    t.(processes := seq(MAX_PROCESSES, i requires 0 <= i < MAX_PROCESSES => ProcessAfterExit(buried[i], id)),
       threads := seq(MAX_THREADS, k requires 0 <= k < MAX_THREADS => ThreadAfterExit(t.threads[k], id)))
  }

  function Exit(t: Table, id: nat, status: int): Done<()>
    requires Sized(t)
  {
    if id == INIT then Done(Err(InvalidState), t)
    else
      match FindProcess(t, id)
      case None => Done(Err(InvalidId), t)
      case Some(s) =>
        if t.processes[s].value.state != Running then Done(Err(InvalidState), t)
        else Done(Ok(()), WithExit(t, s, id, status))
  }

  /** Frees the thread slots a dead process lists, from the j-th on. */
  function FreeThreads(t: Table, ids: seq<Option<nat>>, j: nat): Done<()>
    requires Sized(t) && j <= |ids|
    ensures Sized(FreeThreads(t, ids, j).table)
    decreases |ids| - j
  {
    if j == |ids| then Done(Ok(()), t)
    else if ids[j].None? then FreeThreads(t, ids, j + 1)
    else
      var id := ids[j].value;
      var low := Low(id);
      if low == 0 || low > MAX_THREADS then Done(Err(InvalidId), t)
      else if t.threads[low - 1].None? || t.threads[low - 1].value.id != id then Done(Err(InvalidId), t)
      else
        var freed := SetThread(t, low - 1, None);
        if t.threadGenerations[low - 1] + 1 >= U16_LIMIT then Done(Err(GenerationExhausted), freed)
        else
          var older := t.threadGenerations[low - 1 := t.threadGenerations[low - 1] + 1];
          FreeThreads(freed.(threadGenerations := older), ids, j + 1)
  }

  function Reap(t: Table, s: nat): Done<()>
    requires Sized(t) && s < MAX_PROCESSES && t.processes[s].Some?
  {
    if t.processes[s].value.state != Zombie then Done(Err(InvalidState), t)
    else
      var freed := FreeThreads(t, t.processes[s].value.threads, 0);
      if freed.result.Err? then freed
      else
        var gone := SetProcess(freed.table, s, None);
        if t.processGenerations[s] + 1 >= U16_LIMIT then Done(Err(GenerationExhausted), gone)
        else Done(Ok(()), gone.(processGenerations := t.processGenerations[s := t.processGenerations[s] + 1]))
  }

  predicate IsDeadChild(p: Option<Process>, parent: nat) {
    p.Some? && p.value.parent == Some(parent) && p.value.state == Zombie
  }

  function FirstDeadChild(t: Table, parent: nat, from: nat): (r: Option<nat>)
    requires from <= |t.processes|
    ensures r.Some? ==> from <= r.value < |t.processes| && IsDeadChild(t.processes[r.value], parent)
    ensures r.None? ==> forall s :: from <= s < |t.processes| ==> !IsDeadChild(t.processes[s], parent)
    decreases |t.processes| - from
  {
    if from == |t.processes| then None
    else if IsDeadChild(t.processes[from], parent) then Some(from)
    else FirstDeadChild(t, parent, from + 1)
  }

  function WaitFor(t: Table, id: nat): Done<(nat, int)>
    requires Sized(t)
  {
    match FindProcess(t, id)
    case None => Done(Err(InvalidId), t)
    case Some(s) =>
      var status := t.processes[s].value.exitStatus;
      if status.None? then Done(Err(InvalidState), t)
      else
        var reaped := Reap(t, s);
        if reaped.result.Err? then Done(Err(reaped.result.error), reaped.table)
        else Done(Ok((id, status.value)), reaped.table)
  }

  function Wait(t: Table, parent: nat, child: Option<nat>): Done<(nat, int)>
    requires Sized(t)
  {
    if FindProcess(t, parent).None? then Done(Err(InvalidId), t)
    else if child.Some? then
      match FindProcess(t, child.value)
      case None => Done(Err(InvalidId), t)
      case Some(s) => if IsDeadChild(t.processes[s], parent) then WaitFor(t, child.value) else Done(Err(NoChild), t)
    else
      match FirstDeadChild(t, parent, 0)
      case None => Done(Err(NoChild), t)
      case Some(s) => WaitFor(t, t.processes[s].value.id)
  }

  // ------------------------------------------------------------------ descriptors

  function WithFds(t: Table, s: nat, fds: seq<Option<Fd>>): Table
    requires s < |t.processes| && t.processes[s].Some?
  {
    SetProcess(t, s, Some(t.processes[s].value.(fds := fds)))
  }

  function OpenFd(t: Table, id: nat, openFile: nat, readable: bool, writable: bool): Done<nat>
    requires Sized(t)
  {
    match FindProcess(t, id)
    case None => Done(Err(InvalidId), t)
    case Some(s) =>
      var p := t.processes[s].value;
      if p.state != Running then Done(Err(InvalidState), t)
      else
        match Vacant(p.fds, 0)
        case None => Done(Err(FdCapacity), t)
        case Some(fd) => Done(Ok(fd), WithFds(t, s, p.fds[fd := Some(Fd(openFile, false, readable, writable))]))
  }

  function CloseFd(t: Table, id: nat, fd: nat): Done<()>
    requires Sized(t)
  {
    if fd >= MAX_FDS then Done(Err(InvalidFd), t)
    else
      match FindProcess(t, id)
      case None => Done(Err(InvalidId), t)
      case Some(s) =>
        var fds := t.processes[s].value.fds;
        if fd >= |fds| || fds[fd].None? then Done(Err(InvalidFd), t) else Done(Ok(()), WithFds(t, s, fds[fd := None]))
  }

  function SetCloseOnExec(t: Table, id: nat, fd: nat, enabled: bool): Done<()>
    requires Sized(t)
  {
    if fd >= MAX_FDS then Done(Err(InvalidFd), t)
    else
      match FindProcess(t, id)
      case None => Done(Err(InvalidId), t)
      case Some(s) =>
        var fds := t.processes[s].value.fds;
        if fd >= |fds| || fds[fd].None? then Done(Err(InvalidFd), t)
        else Done(Ok(()), WithFds(t, s, fds[fd := Some(fds[fd].value.(closeOnExec := enabled))]))
  }

  /** The descriptors an exec keeps. */
  function Kept(fds: seq<Option<Fd>>): (r: seq<Option<Fd>>)
    ensures |r| == |fds|
  {
    seq(|fds|, k requires 0 <= k < |fds| => if fds[k].Some? && fds[k].value.closeOnExec then None else fds[k])
  }

  /** How many of the first `n` descriptors an exec closes. */
  function Closed(fds: seq<Option<Fd>>, n: nat): nat
    requires n <= |fds|
  {
    if n == 0 then 0
    else Closed(fds, n - 1) + if fds[n - 1].Some? && fds[n - 1].value.closeOnExec then 1 else 0
  }

  function CloseOnExec(t: Table, id: nat): Done<nat>
    requires Sized(t)
  {
    match FindProcess(t, id)
    case None => Done(Err(InvalidId), t)
    case Some(s) =>
      var fds := t.processes[s].value.fds;
      Done(Ok(Closed(fds, |fds|)), WithFds(t, s, Kept(fds)))
  }

  // ------------------------------------------------------------------ thread states

  function WithState(t: Table, k: nat, state: ThreadState): Table
    requires k < |t.threads| && t.threads[k].Some?
  {
    SetThread(t, k, Some(t.threads[k].value.(state := state)))
  }

  function StateOf(t: Table, k: nat): ThreadState
    requires ThreadIn(t, k).Some?
  {
    t.threads[k].value.state
  }

  function BlockThread(t: Table, id: nat, sleeping: bool): Done<()> {
    match FindThread(t, id)
    case None => Done(Err(InvalidId), t)
    case Some(k) =>
      if StateOf(t, k) != Ready && StateOf(t, k) != OnCpu then Done(Err(InvalidState), t)
      else Done(Ok(()), WithState(t, k, if sleeping then Sleeping else Blocked))
  }

  function WakeThread(t: Table, id: nat): Done<()> {
    match FindThread(t, id)
    case None => Done(Err(InvalidId), t)
    case Some(k) =>
      if StateOf(t, k) != Blocked && StateOf(t, k) != Sleeping then Done(Err(InvalidState), t)
      else Done(Ok(()), WithState(t, k, Ready))
  }

  function PreemptThread(t: Table, id: nat): Done<()> {
    match FindThread(t, id)
    case None => Done(Err(InvalidId), t)
    case Some(k) => if StateOf(t, k) != OnCpu then Done(Err(InvalidState), t) else Done(Ok(()), WithState(t, k, Ready))
  }

  /** Switches to a ready thread, from a running one or from none. */
  function SwitchTo(t: Table, from: Option<nat>, onto: nat): Done<()> {
    if from == Some(onto) then Done(Err(InvalidState), t)
    else
      var leaving := if from.Some? then FindThread(t, from.value) else None;
      if from.Some? && leaving.None? then Done(Err(InvalidId), t)
      else if from.Some? && StateOf(t, leaving.value) != OnCpu then Done(Err(InvalidState), t)
      else
        match FindThread(t, onto)
        case None => Done(Err(InvalidId), t)
        case Some(k) =>
          if StateOf(t, k) != Ready then Done(Err(InvalidState), t)
          else
            var left := if from.Some? then WithState(t, leaving.value, Ready) else t;
            Done(Ok(()), WithState(left, k, OnCpu))
  }

  function PickFrom(t: Table, from: nat): (r: Option<nat>)
    requires from <= |t.threads|
    ensures r.Some? ==> from <= r.value < |t.threads| && ThreadIn(t, r.value).Some? && StateOf(t, r.value) == Ready
    ensures r.None? ==> forall k :: from <= k < |t.threads| && t.threads[k].Some? ==> t.threads[k].value.state != Ready
    decreases |t.threads| - from
  {
    if from == |t.threads| then None
    else if t.threads[from].Some? && t.threads[from].value.state == Ready then Some(from)
    else PickFrom(t, from + 1)
  }

  /** The first ready thread. */
  function PickReady(t: Table): Option<nat> {
    match PickFrom(t, 0)
    case None => None
    case Some(k) => Some(t.threads[k].value.id)
  }

  function NewTable(): Table {
    Table(seq(MAX_PROCESSES, _ => None), seq(MAX_PROCESSES, _ => 0), seq(MAX_THREADS, _ => None),
        seq(MAX_THREADS, _ => 0))
  }
}
