/**
 The program around the heal worker: the goroutine of a sequence that takes items from its source
 channel (`healItemsFromSourceCh`) and the traversals, which both call `queueHealTask`.

 The source channel is unbuffered, and its receiver drops no-op items before they reach the worker.
 A sender uses a no-op to wait until the items before it are done.
*/
module HealSources {
  import opened Common
  import W = HealWorker

  type SeqId = W.SeqId
  type CallId = W.CallId

  /** The goroutine that serves the source channel of a sequence. */
  datatype Loop =
    | AtSelect
    | InCall(call: CallId)  // inside queueHealTask
    | Returned

  /** `taken` lists, for each sequence, the calls made for the items of its source channel. */
  datatype State = State(worker: W.State, loops: map<SeqId, Loop>, taken: map<SeqId, seq<CallId>>)

  const INIT := State(W.INIT, map[], map[])

  datatype Action =
    | StartLoop(sequence: SeqId)
    | Send(sequence: SeqId, item: W.Task, call: CallId)  // the rendezvous on the source channel
    | EndCall(sequence: SeqId)                           // queueHealTask returns
    | Quit(sequence: SeqId)                              // closed channel or ctx.Done()
    | Other(action: W.Action)                            // the worker, cancellation and the traversals

  predicate At(st: State, s: SeqId, l: Loop) { s in st.loops && st.loops[s] == l }

  predicate Finished(w: W.State, c: CallId) {
    c in w.calls && (w.calls[c].phase.Answered? || w.calls[c].phase.Abandoned?)
  }

  predicate Enabled(st: State, a: Action) {
    match a
    case StartLoop(s) => s !in st.loops
    case Send(s, item, c) => At(st, s, AtSelect) && (item.IsNop() || c !in st.worker.calls)
    case EndCall(s) => s in st.loops && st.loops[s].InCall? && Finished(st.worker, st.loops[s].call)
    case Quit(s) => At(st, s, AtSelect)
    // A traversal queues buckets and objects, whose bucket name is never empty.
    case Other(w) => W.Enabled(st.worker, w) && (w.Begin? ==> !w.task.IsNop())
  }

  function Taken(st: State, s: SeqId): seq<CallId> { if s in st.taken then st.taken[s] else [] }

  function Step(st: State, a: Action): State
    requires Enabled(st, a)
  {
    match a
    case StartLoop(s) => st.(loops := st.loops[s := AtSelect], taken := st.taken[s := []])
    case Send(s, item, c) =>
      if item.IsNop() then st
      else
        State(W.Step(st.worker, W.Begin(c, s, item)), st.loops[s := InCall(c)], st.taken[s := Taken(st, s) + [c]])
    case EndCall(s) => st.(loops := st.loops[s := AtSelect])
    case Quit(s) => st.(loops := st.loops[s := Returned])
    case Other(w) => st.(worker := W.Step(st.worker, w))
  }

  predicate ValidRun(st: State, run: seq<Action>)
    decreases run
  {
    run == [] || (Enabled(st, run[0]) && ValidRun(Step(st, run[0]), run[1..]))
  }

  function Exec(st: State, run: seq<Action>): State
    requires ValidRun(st, run)
    decreases run
  {
    if run == [] then st else Exec(Step(st, run[0]), run[1..])
  }

  // ---- Invariant

  /** The calls made for a source channel belong to its sequence; all but the current one are done. */
  ghost predicate LoopAgrees(st: State, s: SeqId) {
    s in st.taken &&
    forall c :: c in st.taken[s] ==>
      && c in st.worker.calls && st.worker.calls[c].sequence == s
      && (Finished(st.worker, c) || At(st, s, InCall(c)))
  }

  ghost predicate Inv(st: State) {
    && W.Inv(st.worker) && W.NopFree(st.worker) && st.taken.Keys == st.loops.Keys
    && forall s :: s in st.loops ==> LoopAgrees(st, s)
  }

  /** A worker step ends no call's result, and moves no call to another sequence. */
  lemma {:induction false} CallsPersist(w: W.State, a: W.Action, c: CallId)
    requires W.Enabled(w, a) && c in w.calls
    ensures var w' := W.Step(w, a);
            c in w'.calls && w'.calls[c].sequence == w.calls[c].sequence && (Finished(w, c) ==> Finished(w', c))
  {
  }

  lemma {:induction false} NopFreeKept(w: W.State, a: W.Action)
    requires W.Enabled(w, a) && W.NopFree(w) && (a.Begin? ==> !a.task.IsNop())
    ensures W.NopFree(W.Step(w, a))
  {
  }

  lemma {:induction false} LoopKept(st: State, a: Action, s: SeqId)
    requires Inv(st) && Enabled(st, a) && s in Step(st, a).loops
    ensures LoopAgrees(Step(st, a), s)
  {
    var st' := Step(st, a);
    if s in st.loops {
      assert LoopAgrees(st, s);
      forall c | c in st.taken[s]
        ensures c in st'.worker.calls && st'.worker.calls[c].sequence == s
        ensures Finished(st'.worker, c) || At(st', s, InCall(c))
      {
        match a {
          case Send(t, item, d) =>
            if !item.IsNop() {
              CallsPersist(st.worker, W.Begin(d, t, item), c);
            }
          case Other(w) => CallsPersist(st.worker, w, c);
          case _ =>
        }
      }
    }
  }

  lemma {:induction false} StepKeepsInv(st: State, a: Action)
    requires Inv(st) && Enabled(st, a)
    ensures Inv(Step(st, a))
  {
    match a {
      case Send(s, item, c) =>
        if !item.IsNop() {
          W.StepKeepsInv(st.worker, W.Begin(c, s, item));
          NopFreeKept(st.worker, W.Begin(c, s, item));
        }
      case Other(w) =>
        W.StepKeepsInv(st.worker, w);
        NopFreeKept(st.worker, w);
      case _ =>
    }
    forall s | s in Step(st, a).loops ensures LoopAgrees(Step(st, a), s) {
      LoopKept(st, a, s);
    }
  }

  lemma {:induction false} RunKeepsInv(st: State, run: seq<Action>)
    requires Inv(st) && ValidRun(st, run)
    ensures Inv(Exec(st, run))
    decreases run
  {
    if run != [] {
      StepKeepsInv(st, run[0]);
      RunKeepsInv(Step(st, run[0]), run[1..]);
    }
  }

  // ---- What the program guarantees

  /**
   In every run of the program, whatever is sent on the source channels: each answer is the result of
   the item that very call queued, only that call can receive it, and the worker holds a response
   nobody can receive only if its sequence was cancelled.
  */
  lemma {:induction false} ProgramResponsesReachTheirCall(run: seq<Action>)
    requires ValidRun(INIT, run)
    ensures var w := Exec(INIT, run).worker;
            W.NopFree(w) && W.Matched(w) && W.OnlyOriginReceives(w) && W.UnawaitedIsCancelled(w)
  {
    RunKeepsInv(INIT, run);
    W.InvMeans(Exec(INIT, run).worker);
  }

  /** The call was answered with the result of its own item, or given up by a cancelled sequence. */
  ghost predicate Settled(w: W.State, s: SeqId, c: CallId) {
    && c in w.calls && w.calls[c].sequence == s
    && match w.calls[c].phase
       case Answered(resp) =>
         resp.origin == c && resp.task == w.calls[c].task && c in w.healed && resp.result == w.healed[c]
       case Abandoned => s in w.cancelled
       case _ => false
  }

  /** What an action sends on the source channel of s, apart from no-ops. */
  function SentBy(a: Action, s: SeqId): seq<W.Task> {
    if a.Send? && a.sequence == s && !a.item.IsNop() then [a.item] else []
  }

  function Sent(run: seq<Action>, s: SeqId): seq<W.Task>
    decreases run
  {
    if run == [] then [] else SentBy(run[0], s) + Sent(run[1..], s)
  }

  /** The calls taken for s are those of `items`, in order. */
  ghost predicate TakenFor(st: State, s: SeqId, items: seq<W.Task>) {
    var taken := Taken(st, s);
    && |taken| == |items|
    && forall i :: 0 <= i < |items| ==> taken[i] in st.worker.calls && st.worker.calls[taken[i]].task == items[i]
  }

  lemma {:induction false} TaskKept(w: W.State, a: W.Action, c: CallId)
    requires W.Enabled(w, a) && c in w.calls
    ensures c in W.Step(w, a).calls && W.Step(w, a).calls[c].task == w.calls[c].task
  {
  }

  lemma {:induction false} StepTakes(st: State, a: Action, s: SeqId, items: seq<W.Task>)
    requires Inv(st) && Enabled(st, a) && TakenFor(st, s, items)
    ensures TakenFor(Step(st, a), s, items + SentBy(a, s))
  {
    var taken, st' := Taken(st, s), Step(st, a);
    forall i | 0 <= i < |items|
      ensures taken[i] in st'.worker.calls && st'.worker.calls[taken[i]].task == items[i]
    {
      match a {
        case Send(t, item, d) =>
          if !item.IsNop() {
            TaskKept(st.worker, W.Begin(d, t, item), taken[i]);
          }
        case Other(w) => TaskKept(st.worker, w, taken[i]);
        case _ =>
      }
    }
  }

  lemma {:induction false} RunTakes(st: State, run: seq<Action>, s: SeqId, items: seq<W.Task>)
    requires Inv(st) && ValidRun(st, run) && TakenFor(st, s, items)
    ensures TakenFor(Exec(st, run), s, items + Sent(run, s))
    decreases run
  {
    if run == [] {
      assert items + Sent(run, s) == items;
    } else {
      var st', rest, now := Step(st, run[0]), run[1..], SentBy(run[0], s);
      StepKeepsInv(st, run[0]);
      StepTakes(st, run[0], s, items);
      RunTakes(st', rest, s, items + now);
      Associate(items, now, Sent(rest, s));
    }
  }

  lemma {:induction false} TakenIsSent(run: seq<Action>, s: SeqId)
    requires ValidRun(INIT, run)
    ensures TakenFor(Exec(INIT, run), s, Sent(run, s))
  {
    RunTakes(INIT, run, s, []);
    assert [] + Sent(run, s) == Sent(run, s);
  }

  lemma {:induction false} IdleLoopIsSettled(st: State, s: SeqId)
    requires Inv(st) && At(st, s, AtSelect)
    ensures forall c :: c in Taken(st, s) ==> Settled(st.worker, s, c)
  {
    W.InvMeans(st.worker);
    assert LoopAgrees(st, s);
    forall c | c in Taken(st, s) ensures Settled(st.worker, s, c) {
      assert Finished(st.worker, c);
    }
  }

  /**
   A no-op is a barrier: in every run, when the send of a no-op on a source channel completes, every
   item sent on that channel before, by whichever sender, has been healed and answered, or its
   sequence was cancelled. The no-op itself changes nothing.
  */
  lemma {:induction false} NopIsABarrier(run: seq<Action>, s: SeqId, nop: W.Task, call: CallId)
    requires ValidRun(INIT, run) && nop.bucket == "" && Enabled(Exec(INIT, run), Send(s, nop, call))
    ensures var st := Exec(INIT, run);
            && Step(st, Send(s, nop, call)) == st
            && TakenFor(st, s, Sent(run, s))
            && forall c :: c in Taken(st, s) ==> Settled(st.worker, s, c)
  {
    RunKeepsInv(INIT, run);
    IdleLoopIsSettled(Exec(INIT, run), s);
    TakenIsSent(run, s);
  }

  lemma {:induction false} RunExtends(st: State, run: seq<Action>, a: Action)
    requires ValidRun(st, run) && Enabled(Exec(st, run), a)
    ensures ValidRun(st, run + [a]) && Exec(st, run + [a]) == Step(Exec(st, run), a)
    decreases run
  {
    if run == [] {
      assert run + [a] == [a] && [a][1..] == [];
    } else {
      RunExtends(Step(st, run[0]), run[1..], a);
      assert (run + [a])[1..] == run[1..] + [a];
    }
  }

  /** The barrier can be passed: an item is sent, healed and answered, and then the no-op goes through. */
  lemma {:induction false} BarrierIsPassed(item: W.Task, nop: W.Task, result: int) returns (run: seq<Action>)
    requires item.bucket != "" && nop.bucket == ""
    ensures ValidRun(INIT, run) && Send(0, item, 7) in run && Enabled(Exec(INIT, run), Send(0, nop, 7))
    ensures W.InPhase(Exec(INIT, run).worker, 7, W.Answered(W.Response(7, item, result)))
  {
    run := [];
    RunExtends(INIT, run, StartLoop(0));
    run := run + [StartLoop(0)];
    RunExtends(INIT, run, Send(0, item, 7));
    run := run + [Send(0, item, 7)];
    RunExtends(INIT, run, Other(W.Hand(7)));
    run := run + [Other(W.Hand(7))];
    RunExtends(INIT, run, Other(W.Heal(result)));
    run := run + [Other(W.Heal(result))];
    RunExtends(INIT, run, Other(W.Deliver(7)));
    run := run + [Other(W.Deliver(7))];
    RunExtends(INIT, run, EndCall(0));
    run := run + [EndCall(0)];
  }

  /** After a cancelled call the loop goes on too. */
  lemma {:induction false} LoopSurvivesCancelledCall(item: W.Task, next: W.Task) returns (run: seq<Action>)
    requires item.bucket != ""
    ensures ValidRun(INIT, run) && Enabled(Exec(INIT, run), Send(0, next, 8))
    ensures W.InPhase(Exec(INIT, run).worker, 7, W.Abandoned)
  {
    run := [];
    RunExtends(INIT, run, StartLoop(0));
    run := run + [StartLoop(0)];
    RunExtends(INIT, run, Send(0, item, 7));
    run := run + [Send(0, item, 7)];
    RunExtends(INIT, run, Other(W.Hand(7)));
    run := run + [Other(W.Hand(7))];
    RunExtends(INIT, run, Other(W.Cancel(0)));
    run := run + [Other(W.Cancel(0))];
    RunExtends(INIT, run, Other(W.Leave(7)));
    run := run + [Other(W.Leave(7))];
    RunExtends(INIT, run, EndCall(0));
    run := run + [EndCall(0)];
  }

  /** A loop that has quit takes nothing any more: its source channel has no receiver. */
  lemma {:induction false} QuitLoopTakesNothing(st: State, s: SeqId, run: seq<Action>)
    requires Enabled(st, Quit(s)) && ValidRun(Step(st, Quit(s)), run)
    ensures At(Exec(Step(st, Quit(s)), run), s, Returned) && Sent(run, s) == []
    ensures forall item, c :: !Enabled(Exec(Step(st, Quit(s)), run), Send(s, item, c))
  {
    ReturnedStays(Step(st, Quit(s)), s, run);
    NothingSent(Step(st, Quit(s)), s, run);
  }

  lemma {:induction false} ReturnedStays(st: State, s: SeqId, run: seq<Action>)
    requires At(st, s, Returned) && ValidRun(st, run)
    ensures At(Exec(st, run), s, Returned)
    decreases run
  {
    if run != [] {
      ReturnedStays(Step(st, run[0]), s, run[1..]);
    }
  }

  lemma {:induction false} NothingSent(st: State, s: SeqId, run: seq<Action>)
    requires At(st, s, Returned) && ValidRun(st, run)
    ensures Sent(run, s) == []
    decreases run
  {
    if run != [] {
      NothingSent(Step(st, run[0]), s, run[1..]);
    }
  }
}
