/** Which ids can come back: none whose status was delivered, in any run whatever. */
module ProcessIds {
  import opened Common
  import opened ProcessTable
  import opened ProcessInvariant
  import opened ProcessRuns

  /** A run, whatever it starts from and whatever it answers. */
  ghost predicate AnyRun(r: Run) {
    && |r.tables| == |r.ops| + 1 && |r.answers| == |r.ops|
    && forall i: nat :: i < |r.ops| ==> Follows(r, i)
  }

  /** The thread's slot has moved on to a later generation than this id's. */
  predicate RetiredThread(t: Table, id: nat) {
    1 <= Low(id) <= MAX_THREADS && High(id) < GenerationAt(t.threadGenerations, Low(id) - 1)
  }

  /** Every thread carries the id of its slot and the slot's generation. */
  ghost predicate Labelled(t: Table) { forall k: nat :: LabelOk(t, k) }

  predicate LabelOk(t: Table, k: nat) {
    ThreadIn(t, k).Some? && k < MAX_THREADS ==>
      ThreadIn(t, k).value.id == Pack(k, GenerationAt(t.threadGenerations, k))
  }

  lemma GoodIsLabelled(t: Table)
    requires Good(t)
    ensures Labelled(t)
  {
    forall k: nat ensures LabelOk(t, k) { assert ThreadOk(t, k); }
  }

  /** No slot gets younger. */
  ghost predicate Older(t: Table, u: Table) {
    && (forall i: nat :: GenerationAt(t.processGenerations, i) <= GenerationAt(u.processGenerations, i))
    && (forall k: nat :: GenerationAt(t.threadGenerations, k) <= GenerationAt(u.threadGenerations, k))
  }

  // ------------------------------------------------------------------ reaping

  function Freed(t: Table, k: nat): Table
    requires Sized(t) && k < MAX_THREADS
  {
    SetThread(t, k, None).(threadGenerations := t.threadGenerations[k := t.threadGenerations[k] + 1])
  }

  lemma FreeingOne(t: Table, k: nat, id: nat)
    requires Sized(t) && Labelled(t) && k < MAX_THREADS && t.threads[k].Some? && t.threads[k].value.id == id
    ensures Labelled(SetThread(t, k, None)) && Labelled(Freed(t, k)) && Older(t, Freed(t, k))
    ensures Low(id) == k + 1 && RetiredThread(Freed(t, k), id)
  {
    assert LabelOk(t, k);
    forall l: nat ensures LabelOk(SetThread(t, k, None), l) && LabelOk(Freed(t, k), l) { assert LabelOk(t, l); }
  }

  lemma {:induction false} FreeingAges(t: Table, ids: seq<Option<nat>>, j: nat)
    requires Sized(t) && j <= |ids| && Labelled(t)
    ensures var r := FreeThreads(t, ids, j);
            && r.table.processes == t.processes && r.table.processGenerations == t.processGenerations
            && Older(t, r.table) && Labelled(r.table)
            && (r.result.Ok? ==> forall l: nat :: j <= l < |ids| && ids[l].Some? ==>
                RetiredThread(r.table, ids[l].value))
    decreases |ids| - j
  {
    if j < |ids| && ids[j].None? {
      FreeingAges(t, ids, j + 1);
    } else if j < |ids| {
      var id := ids[j].value;
      if 1 <= Low(id) <= MAX_THREADS && t.threads[Low(id) - 1].Some? && t.threads[Low(id) - 1].value.id == id {
        FreeingOne(t, Low(id) - 1, id);
        FreeingAges(Freed(t, Low(id) - 1), ids, j + 1);
      }
    }
  }

  lemma ReapingAges(t: Table, s: nat)
    requires Sized(t) && Labelled(t) && s < MAX_PROCESSES && t.processes[s].Some?
    ensures var r := Reap(t, s);
            && Older(t, r.table) && Labelled(r.table)
            && (r.result.Ok? ==>
                  && GenerationAt(r.table.processGenerations, s) == GenerationAt(t.processGenerations, s) + 1
                  && forall l: nat, thread: nat :: Lists(t, s, l, thread) ==> RetiredThread(r.table, thread))
  {
    var ids := t.processes[s].value.threads;
    FreeingAges(t, ids, 0);
    var freed := FreeThreads(t, ids, 0).table;
    forall k: nat ensures LabelOk(Reap(t, s).table, k) { assert LabelOk(freed, k) && LabelOk(t, k); }
  }

  /** The process was there under this id; now its id and those of its threads are retired. */
  ghost predicate Delivers(t: Table, u: Table, id: nat) {
    && FindProcess(t, id).Some? && Retired(u, id)
    && forall l: nat, thread: nat :: Lists(t, FindProcess(t, id).value, l, thread) ==> RetiredThread(u, thread)
  }

  lemma WaitingForAges(t: Table, id: nat)
    requires Sized(t) && Labelled(t)
    ensures var d := WaitFor(t, id);
            && Older(t, d.table) && Labelled(d.table)
            && (d.result.Ok? ==> d.result.value.0 == id && Delivers(t, d.table, id))
  {
    if FindProcess(t, id).Some? {
      ReapingAges(t, FindProcess(t, id).value);
    }
  }

  // ------------------------------------------------------------------ every step

  /** The process and the thread a step has put in the table. */
  function IssuedProcess(answer: Answer): Option<nat> { if answer.Spawned? then Some(answer.process) else None }

  function IssuedThread(answer: Answer): Option<nat> {
    if answer.Spawned? || answer.Started? then Some(answer.thread) else None
  }

  lemma NewIds(t: Table, s: nat, k: nat)
    requires Sized(t) && s < MAX_PROCESSES && k < MAX_THREADS
    ensures !Retired(t, Pack(s, t.processGenerations[s])) && !RetiredThread(t, Pack(k, t.threadGenerations[k]))
  {
  }

  ghost predicate SameAges(t: Table, u: Table) {
    u.processGenerations == t.processGenerations && u.threadGenerations == t.threadGenerations
  }

  /** Creating puts new ids into free slots. */
  lemma CreatingStep(t: Table, op: Op)
    requires Sized(t) && Labelled(t) && (op.DoCreateInit? || op.DoSpawn? || op.DoKernelThread?)
    ensures var step := Apply(t, op);
            && SameAges(t, step.table) && Labelled(step.table) && !step.answer.Delivered?
            && (IssuedProcess(step.answer).Some? ==> !Retired(t, IssuedProcess(step.answer).value))
            && (IssuedThread(step.answer).Some? ==> !RetiredThread(t, IssuedThread(step.answer).value))
  {
    var u, k := Apply(t, op).table, Vacant(t.threads, 0);
    if k.Some? {
      NewIds(t, 0, k.value);
      if Vacant(t.processes, 0).Some? {
        NewIds(t, Vacant(t.processes, 0).value, k.value);
      }
    }
    forall l: nat ensures LabelOk(u, l) { assert LabelOk(t, l); }
  }

  /** The others issue nothing. */
  lemma QuietStep(t: Table, op: Op)
    requires Sized(t) && Labelled(t) && !op.DoWait? && !op.DoCreateInit? && !op.DoSpawn? && !op.DoKernelThread?
    ensures var step := Apply(t, op);
            SameAges(t, step.table) && Labelled(step.table) && (step.answer.Plain? || step.answer.Failed?)
  {
    var u := Apply(t, op).table;
    forall l: nat ensures LabelOk(u, l) { assert LabelOk(t, l); }
  }

  /** What any step does to ids, however the table stands. */
  lemma AnyStep(t: Table, op: Op)
    requires Sized(t) && Labelled(t)
    ensures var step := Apply(t, op);
            && Older(t, step.table) && Labelled(step.table)
            && (IssuedProcess(step.answer).Some? ==> !Retired(t, IssuedProcess(step.answer).value))
            && (IssuedThread(step.answer).Some? ==> !RetiredThread(t, IssuedThread(step.answer).value))
            && (step.answer.Delivered? ==> Delivers(t, step.table, step.answer.process))
  {
    if op.DoWait? {
      if op.child.Some? {
        WaitingForAges(t, op.child.value);
      } else if FirstDeadChild(t, op.parent, 0).Some? {
        WaitingForAges(t, t.processes[FirstDeadChild(t, op.parent, 0).value].value.id);
      }
    } else if op.DoCreateInit? || op.DoSpawn? || op.DoKernelThread? {
      CreatingStep(t, op);
    } else {
      QuietStep(t, op);
    }
  }

  // ------------------------------------------------------------------ every run

  lemma {:induction false} RunAges(r: Run, i: nat, j: nat)
    requires AnyRun(r) && i <= j < |r.tables| && Sized(r.tables[0]) && Labelled(r.tables[0])
    ensures Labelled(r.tables[i]) && Labelled(r.tables[j]) && Older(r.tables[i], r.tables[j])
    decreases j
  {
    if i < j {
      RunAges(r, i, j - 1);
      assert Follows(r, j - 1);
      AnyStep(r.tables[j - 1], r.ops[j - 1]);
    } else if i > 0 {
      RunAges(r, i - 1, i - 1);
      assert Follows(r, i - 1);
      AnyStep(r.tables[i - 1], r.ops[i - 1]);
    }
  }

  /** In every run, even past exhausted generations: a process whose status was delivered is refused
      for ever, its id is never issued again and its status never delivered again. */
  lemma ReapedIdIsGone(r: Run, i: nat, j: nat)
    requires AnyRun(r) && Sized(r.tables[0]) && Labelled(r.tables[0])
    requires i < j < |r.tables| && r.answers[i].Delivered?
    ensures FindProcess(r.tables[j], r.answers[i].process).None?
    ensures j < |r.ops| ==> IssuedProcess(r.answers[j]) != Some(r.answers[i].process)
    ensures j < |r.ops| && r.answers[j].Delivered? ==> r.answers[j].process != r.answers[i].process
  {
    assert Follows(r, i);
    RunAges(r, i, i);
    AnyStep(r.tables[i], r.ops[i]);
    RunAges(r, i + 1, j);
    RetiredIsRefused(r.tables[j], r.answers[i].process);
    if j < |r.ops| {
      assert Follows(r, j);
      AnyStep(r.tables[j], r.ops[j]);
    }
  }

  /** The threads it listed go with it: none of their ids is found or issued again. */
  lemma ReapedThreadIsGone(r: Run, i: nat, j: nat, l: nat, id: nat)
    requires AnyRun(r) && Sized(r.tables[0]) && Labelled(r.tables[0])
    requires i < j < |r.tables| && r.answers[i].Delivered?
    requires FindProcess(r.tables[i], r.answers[i].process).Some?
    requires Lists(r.tables[i], FindProcess(r.tables[i], r.answers[i].process).value, l, id)
    ensures FindThread(r.tables[j], id).None?
    ensures j < |r.ops| ==> IssuedThread(r.answers[j]) != Some(id)
  {
    assert Follows(r, i);
    RunAges(r, i, i);
    AnyStep(r.tables[i], r.ops[i]);
    RunAges(r, i + 1, j);
    if j < |r.ops| {
      assert Follows(r, j);
      AnyStep(r.tables[j], r.ops[j]);
    }
  }
}
