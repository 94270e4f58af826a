/**
 The rendezvous between callers of `healSequence.queueHealTask` and the single worker
 goroutine `healRoutine.run`.

 Both channels are unbuffered: the task channel of the worker, shared by everybody, and one
 response channel per heal sequence, shared by all calls made on that sequence. A run is a
 list of atomic actions, one per rendezvous or select branch, in any interleaving.
*/
module HealWorker {

  /** One execution of queueHealTask. */
  type CallId = nat

  /** One heal sequence; it names the sequence's response channel and its context. */
  type SeqId = nat

  const NOP_HEAL := ""

  datatype Task = Task(bucket: string, object: string, versionId: string) {
    predicate IsNop() { bucket == NOP_HEAL }
  }

  /** A heal result. `origin` records whose task was healed; no guard below reads it. */
  datatype Response = Response(origin: CallId, task: Task, result: int)

  datatype Phase =
    | Sending                 // blocked in `tasks <- task`
    | Waiting                 // in the select over respCh and ctx.Done()
    | Answered(resp: Response)
    | Abandoned               // left the select through ctx.Done()

  datatype Call = Call(sequence: SeqId, task: Task, phase: Phase)

  datatype Worker =
    | Idle                                                        // in its select
    | Healing(task: Task, respCh: SeqId, origin: CallId)          // inside HealObject/HealBucket
    | Responding(resp: Response, respCh: SeqId)                   // blocked in `responseCh <- res`
    | Stopped

  /** `healed` records what healing the task of each call gave; no guard below reads it. */
  datatype State = State(calls: map<CallId, Call>, cancelled: set<SeqId>, worker: Worker, healed: map<CallId, int>)

  const INIT := State(map[], {}, Idle, map[])

  datatype Action =
    | Begin(call: CallId, sequence: SeqId, task: Task)
    | Hand(call: CallId)
    | Heal(result: int)
    | Deliver(call: CallId)
    | Cancel(sequence: SeqId)
    | Leave(call: CallId)
    | StopWorker

  predicate InPhase(st: State, c: CallId, phase: Phase) {
    c in st.calls && st.calls[c].phase == phase
  }

  predicate Enabled(st: State, a: Action) {
    match a
    case Begin(c, _, _) => c !in st.calls
    case Hand(c) => InPhase(st, c, Sending) && st.worker == Idle
    case Heal(_) => st.worker.Healing?
    // Any call waiting on the response channel may win the rendezvous.
    case Deliver(c) => InPhase(st, c, Waiting) && st.worker.Responding? && st.calls[c].sequence == st.worker.respCh
    case Cancel(_) => true
    case Leave(c) => InPhase(st, c, Waiting) && st.calls[c].sequence in st.cancelled
    // doneCh and ctx.Done() are looked at only in the select, never while responding.
    case StopWorker => st.worker == Idle
  }

  function SetPhase(st: State, c: CallId, phase: Phase): State
    requires c in st.calls
  {
    st.(calls := st.calls[c := st.calls[c].(phase := phase)])
  }

  function Step(st: State, a: Action): State
    requires Enabled(st, a)
  {
    match a
    case Begin(c, s, t) => st.(calls := st.calls[c := Call(s, t, Sending)])
    case Hand(c) =>
      var call := st.calls[c];
      // The worker drops a no-op task without answering.
      SetPhase(st, c, Waiting).(worker := if call.task.IsNop() then Idle else Healing(call.task, call.sequence, c))
    case Heal(r) =>
      st.(worker := Responding(Response(st.worker.origin, st.worker.task, r), st.worker.respCh),
          healed := st.healed[st.worker.origin := r])
    case Deliver(c) => SetPhase(st, c, Answered(st.worker.resp)).(worker := Idle)
    case Cancel(s) => st.(cancelled := st.cancelled + {s})
    case Leave(c) => SetPhase(st, c, Abandoned)
    case StopWorker => st.(worker := Stopped)
  }

  predicate ValidRun(st: State, run: seq<Action>)
    decreases run
  {
    run == [] || (Enabled(st, run[0]) && ValidRun(Step(st, run[0]), run[1..]))
  }

  function Exec(st: State, run: seq<Action>): State
    requires ValidRun(st, run)
    decreases run
  {
    if run == [] then st else Exec(Step(st, run[0]), run[1..])
  }

  lemma {:induction false} RunExtends(st: State, run: seq<Action>, a: Action)
    requires ValidRun(st, run) && Enabled(Exec(st, run), a)
    ensures ValidRun(st, run + [a]) && Exec(st, run + [a]) == Step(Exec(st, run), a)
    decreases run
  {
    if run == [] {
      assert run + [a] == [a] && [a][1..] == [];
    } else {
      RunExtends(Step(st, run[0]), run[1..], a);
      assert (run + [a])[1..] == run[1..] + [a];
    }
  }

  // ---- Invariants of every run

  ghost predicate Busy(w: Worker) { w.Healing? || w.Responding? }

  function Origin(w: Worker): CallId
    requires Busy(w)
  {
    if w.Healing? then w.origin else w.resp.origin
  }

  function Carried(w: Worker): Task
    requires Busy(w)
  {
    if w.Healing? then w.task else w.resp.task
  }

  /** The worker holds the task of the call it took it from, for that call's sequence. */
  ghost predicate WorkerHoldsItsCall(st: State) {
    Busy(st.worker) ==>
      var c := Origin(st.worker);
      && c in st.calls
      && st.calls[c].task == Carried(st.worker)
      && st.calls[c].sequence == st.worker.respCh
      && !st.calls[c].task.IsNop()
      && (st.worker.Responding? ==> c in st.healed && st.healed[c] == st.worker.resp.result)
  }

  /** While no no-op is around, only the call that the worker is busy with can be waiting. */
  ghost predicate OnlyOriginWaits(st: State) {
    NopFree(st) ==>
      forall c :: c in st.calls && st.calls[c].phase == Waiting ==> Busy(st.worker) && Origin(st.worker) == c
  }

  ghost predicate AbandonedWereCancelled(st: State) {
    forall c :: c in st.calls && st.calls[c].phase == Abandoned ==> st.calls[c].sequence in st.cancelled
  }

  /** While no no-op is around, the call the worker is busy with waits or has given up. */
  ghost predicate OriginWaitsOrLeft(st: State) {
    NopFree(st) && Busy(st.worker) ==>
      Origin(st.worker) in st.calls && st.calls[Origin(st.worker)].phase in {Waiting, Abandoned}
  }

  ghost predicate NopFree(st: State) {
    forall c :: c in st.calls ==> st.calls[c].task.bucket != ""
  }

  /** Every answered call holds the result of healing its own task. */
  ghost predicate Matched(st: State) {
    forall c :: c in st.calls && st.calls[c].phase.Answered? ==>
      && st.calls[c].phase.resp.origin == c && st.calls[c].phase.resp.task == st.calls[c].task
      && c in st.healed && st.healed[c] == st.calls[c].phase.resp.result
  }

  ghost predicate Inv(st: State) {
    && WorkerHoldsItsCall(st)
    && OnlyOriginWaits(st)
    && AbandonedWereCancelled(st)
    && OriginWaitsOrLeft(st)
    && (NopFree(st) ==> Matched(st))
  }

  lemma {:induction false} StepAddsNoNop(st: State, a: Action)
    requires Enabled(st, a) && NopFree(Step(st, a))
    ensures NopFree(st)
  {
    var st' := Step(st, a);
    forall c | c in st.calls ensures st.calls[c].task.bucket != "" {
      assert c in st'.calls && st'.calls[c].task == st.calls[c].task;
    }
  }

  lemma {:induction false} StepKeepsWorker(st: State, a: Action)
    requires Inv(st) && Enabled(st, a)
    ensures WorkerHoldsItsCall(Step(st, a)) && AbandonedWereCancelled(Step(st, a))
  {
  }

  lemma {:induction false} StepKeepsWaiting(st: State, a: Action)
    requires Inv(st) && Enabled(st, a) && NopFree(Step(st, a)) && NopFree(st)
    ensures OnlyOriginWaits(Step(st, a)) && OriginWaitsOrLeft(Step(st, a))
  {
  }

  lemma {:induction false} StepKeepsMatched(st: State, a: Action)
    requires Inv(st) && Enabled(st, a) && NopFree(st)
    ensures Matched(Step(st, a))
  {
  }

  lemma {:induction false} StepKeepsInv(st: State, a: Action)
    requires Inv(st) && Enabled(st, a)
    ensures Inv(Step(st, a))
  {
    StepKeepsWorker(st, a);
    if NopFree(Step(st, a)) {
      StepAddsNoNop(st, a);
      StepKeepsWaiting(st, a);
      StepKeepsMatched(st, a);
    }
  }

  lemma {:induction false} RunKeepsInv(st: State, run: seq<Action>)
    requires Inv(st) && ValidRun(st, run)
    ensures Inv(Exec(st, run))
    decreases run
  {
    if run != [] {
      StepKeepsInv(st, run[0]);
      RunKeepsInv(Step(st, run[0]), run[1..]);
    }
  }

  // ---- A response reaches the call that asked for it

  /** The worker holds a response, and only the call that queued its task can receive it. */
  ghost predicate OnlyOriginReceives(st: State) {
    st.worker.Responding? ==>
      forall c :: Enabled(st, Deliver(c)) <==> c == st.worker.resp.origin && InPhase(st, c, Waiting)
  }

  /** A response that nobody can receive belongs to a cancelled sequence. */
  ghost predicate UnawaitedIsCancelled(st: State) {
    st.worker.Responding? && (forall c :: !Enabled(st, Deliver(c))) ==> st.worker.respCh in st.cancelled
  }

  lemma {:induction false} InvMeans(st: State)
    requires Inv(st) && NopFree(st)
    ensures Matched(st) && OnlyOriginReceives(st) && UnawaitedIsCancelled(st)
  {
    if st.worker.Responding? && forall c :: !Enabled(st, Deliver(c)) {
      assert !Enabled(st, Deliver(st.worker.resp.origin));
    }
  }

  /**
   In every interleaving of any number of calls on any number of sequences, as long as no
   no-op was queued: every answer is the result of the task that very call queued, and the
   call that queued a task is the only one that can receive its response.
  */
  lemma {:induction false} ResponsesReachTheirCall(run: seq<Action>)
    requires ValidRun(INIT, run) && NopFree(Exec(INIT, run))
    ensures Matched(Exec(INIT, run)) && OnlyOriginReceives(Exec(INIT, run))
  {
    RunKeepsInv(INIT, run);
    InvMeans(Exec(INIT, run));
  }

  /** The worker blocks on a response that nobody awaits only after a cancellation. */
  lemma {:induction false} UnawaitedResponseWasCancelled(run: seq<Action>)
    requires ValidRun(INIT, run) && NopFree(Exec(INIT, run))
    ensures UnawaitedIsCancelled(Exec(INIT, run))
  {
    RunKeepsInv(INIT, run);
    InvMeans(Exec(INIT, run));
  }

  // ---- Which tasks may be queued for that to hold

  ghost predicate Queues(run: seq<Action>, allowed: iset<Task>) {
    forall i :: 0 <= i < |run| && run[i].Begin? ==> run[i].task in allowed
  }

  ghost predicate AlwaysMatched(allowed: iset<Task>) {
    forall run :: ValidRun(INIT, run) && Queues(run, allowed) ==> Matched(Exec(INIT, run))
  }

  ghost predicate TasksFrom(st: State, allowed: iset<Task>) {
    forall c :: c in st.calls ==> st.calls[c].task in allowed
  }

  lemma {:induction false} RunTasksFrom(st: State, run: seq<Action>, allowed: iset<Task>)
    requires ValidRun(st, run) && Queues(run, allowed) && TasksFrom(st, allowed)
    ensures TasksFrom(Exec(st, run), allowed)
    decreases run
  {
    if run != [] {
      var st' := Step(st, run[0]);
      assert run[0].Begin? ==> run[0].task in allowed;
      assert TasksFrom(st', allowed);
      assert Queues(run[1..], allowed) by {
        forall i | 0 <= i < |run[1..]| && run[1..][i].Begin? ensures run[1..][i].task in allowed {
          assert run[1..][i] == run[i + 1];
        }
      }
      RunTasksFrom(st', run[1..], allowed);
    }
  }

  ghost predicate NothingAnswered(st: State) {
    !Busy(st.worker) && forall c :: c in st.calls ==> st.calls[c].task.IsNop() && !st.calls[c].phase.Answered?
  }

  lemma {:induction false} NopRunsAnswerNothing(st: State, run: seq<Action>, allowed: iset<Task>)
    requires ValidRun(st, run) && Queues(run, allowed) && NothingAnswered(st)
    requires forall t :: t in allowed ==> t.IsNop()
    ensures NothingAnswered(Exec(st, run))
    decreases run
  {
    if run != [] {
      assert run[0].Begin? ==> run[0].task in allowed;
      assert NothingAnswered(Step(st, run[0]));
      assert Queues(run[1..], allowed) by {
        forall i | 0 <= i < |run[1..]| && run[1..][i].Begin? ensures run[1..][i].task in allowed {
          assert run[1..][i] == run[i + 1];
        }
      }
      NopRunsAnswerNothing(Step(st, run[0]), run[1..], allowed);
    }
  }

  /**
   Through the bare interface a waiting no-op steals the response meant for another call of its
   sequence. The program's own callers never queue one: see HealSources.
  */
  lemma {:induction false} NopStealsResponse(nop: Task, task: Task) returns (run: seq<Action>)
    requires nop.bucket == "" && task.bucket != ""
    ensures ValidRun(INIT, run) && Queues(run, iset{nop, task}) && !Matched(Exec(INIT, run))
  {
    run := [];
    RunExtends(INIT, run, Begin(0, 0, nop));
    run := run + [Begin(0, 0, nop)];
    RunExtends(INIT, run, Hand(0));
    run := run + [Hand(0)];
    RunExtends(INIT, run, Begin(1, 0, task));
    run := run + [Begin(1, 0, task)];
    RunExtends(INIT, run, Hand(1));
    run := run + [Hand(1)];
    RunExtends(INIT, run, Heal(0));
    run := run + [Heal(0)];
    RunExtends(INIT, run, Deliver(0));
    run := run + [Deliver(0)];
    assert Exec(INIT, run).calls[0].phase.resp.origin == 1;
  }

  /**
   The exact set of tasks that callers may queue: responses reach the right call in every run
   if and only if the tasks are never no-ops or always no-ops.
  */
  lemma {:induction false} MatchedExactlyWithoutMixedNops(allowed: iset<Task>)
    ensures AlwaysMatched(allowed) <==>
            (forall t :: t in allowed ==> t.bucket != "") || (forall t :: t in allowed ==> t.bucket == "")
  {
    if forall t :: t in allowed ==> !t.IsNop() {
      forall run | ValidRun(INIT, run) && Queues(run, allowed) ensures Matched(Exec(INIT, run)) {
        RunKeepsInv(INIT, run);
        RunTasksFrom(INIT, run, allowed);
      }
    } else if forall t :: t in allowed ==> t.IsNop() {
      forall run | ValidRun(INIT, run) && Queues(run, allowed) ensures Matched(Exec(INIT, run)) {
        NopRunsAnswerNothing(INIT, run, allowed);
      }
    } else {
      var nop :| nop in allowed && nop.IsNop();
      var task :| task in allowed && !task.IsNop();
      var run := NopStealsResponse(nop, task);
      assert Queues(run, allowed);
      assert !AlwaysMatched(allowed);
    }
  }

  // ---- A stopped worker

  /** Once the worker has stopped, no continuation gives it a task or answers another call. */
  lemma {:induction false} StoppedWorkerServesNobody(st: State, run: seq<Action>)
    requires Enabled(st, StopWorker) && ValidRun(Step(st, StopWorker), run)
    ensures var end := Exec(Step(st, StopWorker), run); end.worker == Stopped && NoProgress(st, end)
  {
    StoppedStays(Step(st, StopWorker), run);
  }

  lemma {:induction false} StoppedStays(st: State, run: seq<Action>)
    requires st.worker == Stopped && ValidRun(st, run)
    ensures Exec(st, run).worker == Stopped && NoProgress(st, Exec(st, run))
    decreases run
  {
    if run != [] {
      StoppedStays(Step(st, run[0]), run[1..]);
    }
  }

  // ---- One abandoned call stalls healing for every sequence

  /** The worker carries a task whose caller left through its cancelled context. */
  ghost predicate Stalled(st: State, c: CallId) {
    Busy(st.worker) && Origin(st.worker) == c && InPhase(st, c, Abandoned)
  }

  /** Nobody at all can receive from the worker. */
  ghost predicate NobodyWaits(st: State) {
    forall c :: c in st.calls ==> st.calls[c].phase != Waiting
  }

  /** Between the two states no call was answered, and every call that was sending still is. */
  ghost predicate NoProgress(st: State, end: State) {
    && (forall d :: d in end.calls && end.calls[d].phase.Answered? ==>
          d in st.calls && st.calls[d].phase == end.calls[d].phase)
    && (forall d :: InPhase(st, d, Sending) ==> InPhase(end, d, Sending))
  }

  lemma {:induction false} StallPersists(st: State, c: CallId, run: seq<Action>)
    requires ValidRun(st, run) && Stalled(st, c) && NobodyWaits(st)
    ensures var end := Exec(st, run);
            && Stalled(end, c)
            && NobodyWaits(end)
            && NoProgress(st, end)
    decreases run
  {
    if run != [] {
      var st' := Step(st, run[0]);
      assert Stalled(st', c) && NobodyWaits(st');
      StallPersists(st', c, run[1..]);
    }
  }

  /**
   When a caller gives up while the worker is busy with its task, then in every continuation,
   whatever tasks are queued on whatever sequence, the worker never takes another task, no call
   is ever answered again, and a call that was queueing its task is still queueing it, whether
   its sequence is cancelled or not.
  */
  lemma {:induction false} AbandonedTaskStallsEverySequence(past: seq<Action>, future: seq<Action>, c: CallId)
    requires ValidRun(INIT, past) && NopFree(Exec(INIT, past)) && Stalled(Exec(INIT, past), c)
    requires ValidRun(Exec(INIT, past), future)
    ensures var st := Exec(INIT, past); var end := Exec(st, future);
            Stalled(end, c) && NoProgress(st, end)
  {
    RunKeepsInv(INIT, past);
    StallPersists(Exec(INIT, past), c, future);
  }

  /** It takes one call, cancelled while the worker heals its task. */
  lemma {:induction false} CancelledCallerStallsTheWorker(task: Task) returns (run: seq<Action>)
    requires task.bucket != ""
    ensures ValidRun(INIT, run) && NopFree(Exec(INIT, run)) && Stalled(Exec(INIT, run), 0)
  {
    run := [];
    RunExtends(INIT, run, Begin(0, 0, task));
    run := run + [Begin(0, 0, task)];
    RunExtends(INIT, run, Hand(0));
    run := run + [Hand(0)];
    RunExtends(INIT, run, Cancel(0));
    run := run + [Cancel(0)];
    RunExtends(INIT, run, Leave(0));
    run := run + [Leave(0)];
  }

  ghost predicate CanRecover(st: State) {
    exists run :: ValidRun(st, run) && Exec(st, run).worker == Idle
  }

  /** A busy worker can become free again exactly when the caller is still there. */
  lemma {:induction false} WorkerRecoversIffCallerWaits(past: seq<Action>)
    requires ValidRun(INIT, past) && NopFree(Exec(INIT, past)) && Busy(Exec(INIT, past).worker)
    ensures var st := Exec(INIT, past);
            CanRecover(st) <==> InPhase(st, Origin(st.worker), Waiting)
  {
    var st := Exec(INIT, past);
    var c := Origin(st.worker);
    RunKeepsInv(INIT, past);
    if InPhase(st, c, Waiting) {
      var run: seq<Action> := [];
      if st.worker.Healing? {
        RunExtends(st, run, Heal(0));
        run := run + [Heal(0)];
      }
      RunExtends(st, run, Deliver(c));
      run := run + [Deliver(c)];
      assert ValidRun(st, run) && Exec(st, run).worker == Idle;
    } else {
      forall run | ValidRun(st, run) ensures Exec(st, run).worker != Idle {
        StallPersists(st, c, run);
      }
    }
  }
}
