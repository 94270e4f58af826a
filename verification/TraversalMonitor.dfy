/**
 The monitor goroutine of a heal sequence (`healSequenceStart`), which races the result of the
 traversal goroutine (`traverseAndHeal`) against cancellation, and the goroutine it leaves
 behind to drain the result channel.

 The result channel is unbuffered. A sequence fed from a source channel runs no traversal:
 nothing is ever sent on, or closes, its result channel.
*/
module TraversalMonitor {
  import opened Common

  datatype Mode = Traverse | FromSource

  datatype Summary = NotStarted | Running | Stopped | Finished

  datatype Status = Status(summary: Summary, failureDetail: string, endTime: Option<int>)

  datatype Monitor =
    | Fresh
    | Launching                          // status set, goroutine not spawned yet
    | Selecting
    | GotResult(err: Option<string>)     // received, about to take the mutex
    | SawCancel                          // ctx.Done() chosen, about to take the mutex
    | SpawningDrain
    | Returned

  datatype Traversal =
    | Unborn
    | Walking
    | Offering(err: Option<string>)      // blocked in `traverseAndHealDoneCh <- err`
    | Closing
    | Closed

  datatype Drain = Absent | Draining | Drained

  /** `consumed`, `ends` and `closedReturn` only count events; no guard reads them. */
  datatype State = State(
    mode: Mode, cancelled: bool, status: Status,
    monitor: Monitor, traversal: Traversal, drain: Drain,
    consumed: nat, ends: nat, closedReturn: bool, walked: Option<Option<string>>)

  function Init(mode: Mode): State {
    State(mode, false, Status(NotStarted, "", None), Fresh, Unborn, Absent, 0, 0, false, None)
  }

  datatype Action =
    | MarkRunning
    | SpawnWork
    | FinishWalk(err: Option<string>)
    | MonitorTakes
    | MonitorSeesClosed
    | MonitorSeesCancel
    | RecordResult(now: int)
    | RecordCancel(now: int)
    | SpawnDrain
    | DrainTakes
    | DrainSeesClosed
    | CloseChannel
    | Cancel

  predicate Enabled(st: State, a: Action) {
    match a
    case MarkRunning => st.monitor == Fresh
    case SpawnWork => st.monitor == Launching
    case FinishWalk(_) => st.traversal == Walking
    case MonitorTakes => st.monitor == Selecting && st.traversal.Offering?
    case MonitorSeesClosed => st.monitor == Selecting && st.traversal == Closed
    case MonitorSeesCancel => st.monitor == Selecting && st.cancelled
    case RecordResult(_) => st.monitor.GotResult?
    case RecordCancel(_) => st.monitor == SawCancel
    case SpawnDrain => st.monitor == SpawningDrain
    case DrainTakes => st.drain == Draining && st.traversal.Offering?
    case DrainSeesClosed => st.drain == Draining && st.traversal == Closed
    case CloseChannel => st.traversal == Closing
    case Cancel => true
  }

  function Step(st: State, a: Action): State
    requires Enabled(st, a)
  {
    match a
    case MarkRunning => st.(monitor := Launching, status := st.status.(summary := Running))
    case SpawnWork =>
      st.(monitor := Selecting, traversal := if st.mode == Traverse then Walking else st.traversal)
    case FinishWalk(err) => st.(traversal := Offering(err), walked := Some(err))
    case MonitorTakes =>
      st.(monitor := GotResult(st.traversal.err), traversal := Closing, consumed := st.consumed + 1)
    case MonitorSeesClosed => st.(monitor := Returned, closedReturn := true)
    case MonitorSeesCancel => st.(monitor := SawCancel)
    case RecordResult(now) =>
      var status := match st.monitor.err {
        case None => st.status.(summary := Finished, endTime := Some(now))
        case Some(e) => Status(Stopped, e, Some(now))
      };
      st.(monitor := Returned, status := status, ends := st.ends + 1)
    case RecordCancel(now) =>
      st.(monitor := SpawningDrain, status := st.status.(summary := Finished, endTime := Some(now)),
          ends := st.ends + 1)
    case SpawnDrain => st.(monitor := Returned, drain := Draining)
    case DrainTakes => st.(drain := Drained, traversal := Closing, consumed := st.consumed + 1)
    case DrainSeesClosed => st.(drain := Drained)
    case CloseChannel => st.(traversal := Closed)
    case Cancel => st.(cancelled := true)
  }

  predicate ValidRun(st: State, run: seq<Action>)
    decreases run
  {
    run == [] || (Enabled(st, run[0]) && ValidRun(Step(st, run[0]), run[1..]))
  }

  function Exec(st: State, run: seq<Action>): State
    requires ValidRun(st, run)
    decreases run
  {
    if run == [] then st else Exec(Step(st, run[0]), run[1..])
  }

  lemma {:induction false} RunExtends(st: State, run: seq<Action>, a: Action)
    requires ValidRun(st, run) && Enabled(Exec(st, run), a)
    ensures ValidRun(st, run + [a]) && Exec(st, run + [a]) == Step(Exec(st, run), a)
    decreases run
  {
    if run == [] {
      assert run + [a] == [a] && [a][1..] == [];
    } else {
      RunExtends(Step(st, run[0]), run[1..], a);
      assert (run + [a])[1..] == run[1..] + [a];
    }
  }

  // ---- Invariant

  predicate Waiting(m: Monitor) { m.Fresh? || m.Launching? || m.Selecting? }

  /** How far the monitor is decides the status, the end time and the drain goroutine. */
  predicate MonitorAgrees(st: State) {
    && (Waiting(st.monitor) || st.monitor.GotResult? || st.monitor.SawCancel? <==> st.ends == 0)
    && st.ends <= 1
    && (st.ends == 1 <==> st.status.endTime.Some?)
    && (st.ends == 1 ==> st.status.summary in {Stopped, Finished})
    && (st.ends == 0 ==> st.status.failureDetail == "" && st.status.summary in {NotStarted, Running})
    && (st.status.summary == Finished ==> st.status.failureDetail == "")
    && (st.drain != Absent ==> st.monitor == Returned)
    && (st.monitor == SawCancel || st.monitor == SpawningDrain || st.drain != Absent ==> st.cancelled)
  }

  /** The traversal's one value went to the monitor or to the drain goroutine, never to both. */
  predicate ChannelAgrees(st: State) {
    && (Waiting(st.monitor) || st.monitor.SawCancel? || st.monitor.SpawningDrain? || st.drain == Draining ==>
          st.consumed == 0)
    && (st.monitor.GotResult? || st.drain == Drained ==> st.consumed == 1)
    && (st.monitor == Returned && st.drain == Absent ==> st.consumed == 1)
    && (st.monitor.Fresh? || st.monitor.Launching? ==> st.traversal == Unborn)
    && (st.mode == Traverse && !(st.monitor.Fresh? || st.monitor.Launching?) ==> st.traversal != Unborn)
    && (st.traversal.Unborn? || st.traversal.Walking? || st.traversal.Offering? ==> st.consumed == 0)
    && (st.traversal.Closing? || st.traversal.Closed? ==> st.consumed == 1)
    && (st.mode == FromSource ==> st.traversal == Unborn)
    && !st.closedReturn
  }

  /** A failure report repeats what the traversal ended with. */
  predicate FailureAgrees(st: State) {
    && (st.traversal.Offering? ==> st.walked == Some(st.traversal.err))
    && (st.monitor.GotResult? ==> st.walked == Some(st.monitor.err))
    && (st.monitor.GotResult? || st.status.summary == Stopped ==> st.traversal.Closing? || st.traversal.Closed?)
    && (st.status.summary == Stopped ==> st.walked == Some(Some(st.status.failureDetail)))
    && (st.walked == None <==> st.traversal.Unborn? || st.traversal.Walking?)
  }

  /** The summary follows the monitor, and at the end what the monitor chose. */
  predicate SummaryAgrees(st: State) {
    && (st.ends == 0 ==> st.status.summary == if st.monitor == Fresh then NotStarted else Running)
    && (st.monitor == Returned && st.drain == Absent ==>
          st.walked.Some? && st.status.summary == if st.walked.value == None then Finished else Stopped)
    && (st.monitor == SpawningDrain || st.drain != Absent ==> st.status.summary == Finished)
  }

  predicate Inv(st: State) { MonitorAgrees(st) && ChannelAgrees(st) && FailureAgrees(st) && SummaryAgrees(st) }

  lemma {:induction false} StepKeepsInv(st: State, a: Action)
    requires Inv(st) && Enabled(st, a)
    ensures Inv(Step(st, a)) && Step(st, a).mode == st.mode
  {
    match a {
      case MarkRunning =>
      case SpawnWork =>
      case FinishWalk(_) =>
      case MonitorTakes =>
      case MonitorSeesClosed => assert false;
      case MonitorSeesCancel =>
      case RecordResult(_) =>
      case RecordCancel(_) =>
      case SpawnDrain =>
      case DrainTakes =>
      case DrainSeesClosed => assert false;
      case CloseChannel =>
      case Cancel =>
    }
  }

  lemma {:induction false} RunKeepsInv(st: State, run: seq<Action>)
    requires Inv(st) && ValidRun(st, run)
    ensures Inv(Exec(st, run)) && Exec(st, run).mode == st.mode
    decreases run
  {
    if run != [] {
      StepKeepsInv(st, run[0]);
      RunKeepsInv(Step(st, run[0]), run[1..]);
    }
  }

  // ---- Safety of every run

  /**
   In every interleaving: the traversal's value is received at most once; neither receiver
   ever finds the channel closed; the end is recorded at most once, exactly when `endTime` is
   set; and a stopped sequence reports the error its traversal returned, while no other
   sequence reports a failure.
  */
  lemma {:induction false} EverySequenceEndsOnce(mode: Mode, run: seq<Action>)
    requires ValidRun(Init(mode), run)
    ensures var st := Exec(Init(mode), run);
            && st.consumed <= 1
            && !st.closedReturn && !Enabled(st, MonitorSeesClosed) && !Enabled(st, DrainSeesClosed)
            && st.ends <= 1 && (st.ends == 1 <==> st.status.endTime.Some?)
            && (st.status.summary == Stopped ==> st.walked == Some(Some(st.status.failureDetail)))
            && (st.status.summary != Stopped ==> st.status.failureDetail == "")
  {
    RunKeepsInv(Init(mode), run);
  }

  /**
   In every run the summary says how far the sequence is and how it ended: running from the start to
   the end; stopped, with the error, if the monitor received an error from the walk; finished if it
   received none, or saw a cancellation.
  */
  lemma {:induction false} SummaryTellsHowItEnded(mode: Mode, run: seq<Action>)
    requires ValidRun(Init(mode), run)
    ensures var st := Exec(Init(mode), run);
            && (st.monitor == Fresh ==> st.status == Status(NotStarted, "", None))
            && (st.monitor != Fresh && st.ends == 0 ==> st.status == Status(Running, "", None))
            && (st.monitor == Returned && st.drain == Absent ==>
                  && st.walked.Some?
                  && match st.walked.value
                     case None => st.status.summary == Finished && st.status.failureDetail == ""
                     case Some(e) => st.status.summary == Stopped && st.status.failureDetail == e)
            && (st.monitor == SpawningDrain || st.drain != Absent ==>
                  Cancel in run && st.status.summary == Finished && st.status.failureDetail == "")
  {
    RunKeepsInv(Init(mode), run);
    CancelledExactlyByCancel(Init(mode), run);
  }

  /** A sequence counts as cancelled exactly after a cancellation. */
  lemma {:induction false} CancelledExactlyByCancel(st: State, run: seq<Action>)
    requires ValidRun(st, run)
    ensures Exec(st, run).cancelled <==> st.cancelled || Cancel in run
    decreases run
  {
    if run != [] {
      CancelledExactlyByCancel(Step(st, run[0]), run[1..]);
      assert Cancel in run <==> run[0] == Cancel || Cancel in run[1..];
    }
  }

  /** The times at which the run recorded an end. */
  function RecordedTimes(run: seq<Action>): seq<int>
    decreases run
  {
    if run == [] then []
    else
      (match run[0]
       case RecordResult(now) => [now]
       case RecordCancel(now) => [now]
       case _ => []) + RecordedTimes(run[1..])
  }

  /** The end time is the time at which the end was recorded, and there is at most one. */
  lemma {:induction false} EndTimeWasRecorded(st: State, run: seq<Action>)
    requires Inv(st) && ValidRun(st, run) && st.status.endTime == None
    ensures var end := Exec(st, run).status.endTime;
            RecordedTimes(run) == if end.Some? then [end.value] else []
    decreases run
  {
    if run != [] {
      var st' := Step(st, run[0]);
      StepKeepsInv(st, run[0]);
      if st'.status.endTime == None {
        EndTimeWasRecorded(st', run[1..]);
      } else {
        NothingRecordedAfterEnd(st', run[1..]);
        EndedStatusIsFrozen(st', run[1..]);
      }
    }
  }

  lemma {:induction false} NothingRecordedAfterEnd(st: State, run: seq<Action>)
    requires Inv(st) && ValidRun(st, run) && st.status.endTime.Some?
    ensures RecordedTimes(run) == []
    decreases run
  {
    if run != [] {
      StepKeepsInv(st, run[0]);
      NothingRecordedAfterEnd(Step(st, run[0]), run[1..]);
    }
  }

  /** Once `endTime` is set, no continuation changes it, the summary or the failure detail. */
  lemma {:induction false} EndedStatusIsFrozen(st: State, run: seq<Action>)
    requires Inv(st) && st.status.endTime.Some? && ValidRun(st, run)
    ensures Exec(st, run).status == st.status
    decreases run
  {
    if run != [] {
      StepKeepsInv(st, run[0]);
      EndedStatusIsFrozen(Step(st, run[0]), run[1..]);
    }
  }

  lemma {:induction false} EndedSequenceStaysAsItEnded(mode: Mode, past: seq<Action>, future: seq<Action>)
    requires ValidRun(Init(mode), past) && Exec(Init(mode), past).status.endTime.Some?
    requires ValidRun(Exec(Init(mode), past), future)
    ensures Exec(Exec(Init(mode), past), future).status == Exec(Init(mode), past).status
  {
    RunKeepsInv(Init(mode), past);
    EndedStatusIsFrozen(Exec(Init(mode), past), future);
  }

  ghost predicate WalkNeverEnds(run: seq<Action>) { forall a :: a in run ==> !a.FinishWalk? }

  /** A cancellation records the end while the monitor is about to spawn the drain goroutine. */
  lemma {:induction false} CancellationRecordsTheEnd(mode: Mode) returns (run: seq<Action>)
    ensures ValidRun(Init(mode), run) && WalkNeverEnds(run)
    ensures var st := Exec(Init(mode), run);
            && st.status.endTime.Some? && st.monitor == SpawningDrain
            && st.traversal == if mode == Traverse then Walking else Unborn
  {
    run := [];
    RunExtends(Init(mode), run, MarkRunning);
    run := run + [MarkRunning];
    RunExtends(Init(mode), run, SpawnWork);
    run := run + [SpawnWork];
    RunExtends(Init(mode), run, Cancel);
    run := run + [Cancel];
    RunExtends(Init(mode), run, MonitorSeesCancel);
    run := run + [MonitorSeesCancel];
    RunExtends(Init(mode), run, RecordCancel(0));
    run := run + [RecordCancel(0)];
  }

  /** An end time does not mean that the traversal has stopped: here it still walks. */
  lemma {:induction false} CancelledSequenceMayStillWalk() returns (run: seq<Action>)
    ensures ValidRun(Init(Traverse), run)
    ensures var st := Exec(Init(Traverse), run); st.status.endTime.Some? && st.traversal == Walking
  {
    run := CancellationRecordsTheEnd(Traverse);
  }

  /** The walk has handed its result over. */
  predicate WalkOver(st: State) { st.traversal.Closing? || st.traversal.Closed? }

  /**
   When an end time does mean that the walk is over: exactly when the monitor has returned and no
   drain goroutine is waiting; in particular always when the sequence was not cancelled.
  */
  lemma {:induction false} EndMeansWalkOverExactly(run: seq<Action>)
    requires ValidRun(Init(Traverse), run) && Exec(Init(Traverse), run).status.endTime.Some?
    ensures var st := Exec(Init(Traverse), run);
            && (WalkOver(st) <==> st.monitor == Returned && st.drain != Draining)
            && (!st.cancelled ==> WalkOver(st))
  {
    RunKeepsInv(Init(Traverse), run);
  }

  // ---- Where runs come to rest

  /**
   Nothing but a further cancellation or the end of the walk can happen. The walk is not part of
   this module: it may block for ever, for one when it queues an item on a stalled heal worker.
  */
  predicate AtRest(st: State) {
    && !(st.monitor.Fresh? || st.monitor.Launching? || st.monitor.GotResult? || st.monitor.SawCancel? ||
         st.monitor.SpawningDrain?)
    && !(st.monitor.Selecting? && (st.cancelled || st.traversal.Offering? || st.traversal.Closed?))
    && !st.traversal.Closing?
    && !(st.drain.Draining? && (st.traversal.Offering? || st.traversal.Closed?))
  }

  lemma {:induction false} AtRestMeansNothingEnabled(st: State)
    ensures AtRest(st) <==> forall a :: Enabled(st, a) ==> a == Cancel || a.FinishWalk?
  {
    if AtRest(st) {
      forall a | Enabled(st, a) ensures a == Cancel || a.FinishWalk? {
        match a {
          case Cancel =>
          case FinishWalk(_) =>
          case _ => assert false;
        }
      }
    } else {
      var a :=
        match st.monitor {
          case Fresh => MarkRunning
          case Launching => SpawnWork
          case GotResult(_) => RecordResult(0)
          case SawCancel => RecordCancel(0)
          case SpawningDrain => SpawnDrain
          case _ =>
            if st.traversal.Closing? then CloseChannel
            else if st.monitor.Selecting? && st.cancelled then MonitorSeesCancel
            else if st.monitor.Selecting? && st.traversal.Offering? then MonitorTakes
            else if st.monitor.Selecting? && st.traversal.Closed? then MonitorSeesClosed
            else if st.traversal.Offering? then DrainTakes
            else DrainSeesClosed
        };
      assert Enabled(st, a) && a != Cancel && !a.FinishWalk?;
    }
  }

  function Rank(st: State): nat {
    (match st.monitor
     case Fresh => 5 case Launching => 4 case Selecting => 3 case GotResult(_) => 2
     case SawCancel => 2 case SpawningDrain => 1 case Returned => 0)
    + (match st.traversal
       case Unborn => 4 case Walking => 3 case Offering(_) => 2 case Closing => 1 case Closed => 0)
    + (match st.drain case Absent => 1 case Draining => 1 case Drained => 0)
  }

  lemma {:induction false} StepLowersRank(st: State, a: Action)
    requires Inv(st) && Enabled(st, a)
    ensures Rank(Step(st, a)) <= Rank(st) && (a != Cancel ==> Rank(Step(st, a)) < Rank(st))
  {
  }

  function Count(run: seq<Action>): nat {
    if run == [] then 0 else (if run[0] == Cancel then 0 else 1) + Count(run[1..])
  }

  /** `Count` leaves out the cancellations and nothing else. */
  lemma {:induction false} CountLeavesOutCancellations(run: seq<Action>)
    ensures Count(run) + multiset(run)[Cancel] == |run|
    decreases run
  {
    if run != [] {
      CountLeavesOutCancellations(run[1..]);
      assert run == [run[0]] + run[1..];
    }
  }

  /** No run takes more than ten actions besides cancellations. */
  lemma {:induction false} RunsAreShort(st: State, run: seq<Action>)
    requires Inv(st) && ValidRun(st, run)
    ensures Count(run) + Rank(Exec(st, run)) <= Rank(st)
    decreases run
  {
    if run != [] {
      StepKeepsInv(st, run[0]);
      StepLowersRank(st, run[0]);
      RunsAreShort(Step(st, run[0]), run[1..]);
    }
  }

  predicate AllReturned(st: State) {
    st.monitor == Returned && st.traversal == Closed && st.drain != Draining
  }

  /**
   Every run is short, and where it comes to rest all goroutines have returned if and only if the
   walk ended. Then the value was received exactly once and the end recorded exactly once. If the
   walk has not ended, the monitor still waits, or, after a cancellation, the end is recorded and
   the drain goroutine waits.
  */
  lemma {:induction false} TraversalRunsComeToRest(run: seq<Action>)
    requires ValidRun(Init(Traverse), run)
    ensures |run| <= 10 + multiset(run)[Cancel]
    ensures var st := Exec(Init(Traverse), run);
            AtRest(st) ==>
              && (AllReturned(st) <==> st.walked.Some?)
              && (st.walked.Some? ==> st.consumed == 1 && st.ends == 1)
              && (st.walked == None ==>
                    if st.cancelled then st.ends == 1 && st.drain == Draining
                    else st.ends == 0 && st.monitor == Selecting)
  {
    RunKeepsInv(Init(Traverse), run);
    RunsAreShort(Init(Traverse), run);
    CountLeavesOutCancellations(run);
  }

  /** A drain goroutine is spawned by a cancellation before the walk ends, in either mode. */
  lemma {:induction false} CancellationSpawnsTheDrain(mode: Mode) returns (run: seq<Action>)
    ensures ValidRun(Init(mode), run) && WalkNeverEnds(run)
    ensures var st := Exec(Init(mode), run); st.drain == Draining && AtRest(st)
  {
    run := CancellationRecordsTheEnd(mode);
    RunExtends(Init(mode), run, SpawnDrain);
    run := run + [SpawnDrain];
  }

  /** As long as the walk does not end, a drain goroutine that was spawned does not return. */
  lemma {:induction false} UnendedWalkKeepsItsDrain(past: seq<Action>, future: seq<Action>)
    requires ValidRun(Init(Traverse), past) && ValidRun(Exec(Init(Traverse), past), future)
    requires WalkNeverEnds(past) && WalkNeverEnds(future)
    ensures var st := Exec(Init(Traverse), past);
            st.walked == None && st.consumed == 0 && (st.drain == Draining ==> Exec(st, future).drain == Draining)
  {
    var st := Exec(Init(Traverse), past);
    RunKeepsInv(Init(Traverse), past);
    NothingWalked(Init(Traverse), past);
    RunKeepsInv(st, future);
    NothingWalked(st, future);
    if st.drain == Draining {
      DrainNeverVanishes(st, future);
    }
  }

  lemma {:induction false} NothingWalked(st: State, run: seq<Action>)
    requires Inv(st) && ValidRun(st, run) && WalkNeverEnds(run) && st.walked == None
    ensures Exec(st, run).walked == None
    decreases run
  {
    if run != [] {
      assert run[0] in run;
      StepKeepsInv(st, run[0]);
      NothingWalked(Step(st, run[0]), run[1..]);
    }
  }

  /**
   A sequence fed from a source channel ends only by cancellation, and the goroutine spawned
   to drain its result channel then blocks for ever: no continuation lets it return.
  */
  lemma {:induction false} SourceSequenceLeaksItsDrain(past: seq<Action>, future: seq<Action>)
    requires ValidRun(Init(FromSource), past) && ValidRun(Exec(Init(FromSource), past), future)
    ensures var st := Exec(Init(FromSource), past);
            && (st.status.endTime.Some? ==> st.status.summary == Finished && st.cancelled)
            && st.consumed == 0
            && (st.drain == Draining ==> Exec(st, future).drain == Draining)
            && (AtRest(st) && st.cancelled ==> st.drain == Draining)
  {
    RunKeepsInv(Init(FromSource), past);
    var st := Exec(Init(FromSource), past);
    CancelledOnce(Init(FromSource), past);
    RunKeepsInv(st, future);
    if st.drain == Draining {
      DrainNeverVanishes(st, future);
    }
  }

  ghost predicate EndedByCancel(st: State) {
    st.monitor in {SawCancel, SpawningDrain, Returned} ==> st.cancelled
  }

  lemma {:induction false} CancelledOnce(st: State, run: seq<Action>)
    requires Inv(st) && st.mode == FromSource && EndedByCancel(st) && ValidRun(st, run)
    ensures EndedByCancel(Exec(st, run))
    decreases run
  {
    if run != [] {
      StepKeepsInv(st, run[0]);
      CancelledOnce(Step(st, run[0]), run[1..]);
    }
  }

  lemma {:induction false} DrainNeverVanishes(st: State, run: seq<Action>)
    requires Inv(st) && ValidRun(st, run) && st.drain != Absent
    ensures Exec(st, run).drain != Absent
    decreases run
  {
    if run != [] {
      StepKeepsInv(st, run[0]);
      DrainNeverVanishes(Step(st, run[0]), run[1..]);
    }
  }
}
