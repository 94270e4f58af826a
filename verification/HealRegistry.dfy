/**
 The registry of heal sequences (`allHealState.healSeqMap`): launching, stopping, finishing and
 periodic cleaning.

 The class holds the code of each critical section. Below it, whole runs are lists of atomic
 actions, one per critical section, taken by any number of concurrent requests.
*/
module HealRegistry {
  import opened Common
  import opened HealSequences

  /** keepHealSeqStateDuration, in seconds. */
  const KEEP_SECONDS := 600

  predicate Overlaps(p: string, q: string) { p <= q || q <= p }

  /** The overlap check over the registered paths, given the paths whose sequence has ended. */
  predicate MayLaunch(paths: set<string>, ended: set<string>, hpath: string) {
    forall k :: k in paths && k !in ended ==> !Overlaps(k, hpath)
  }

  /** No two registered sequences that have not ended have overlapping paths. */
  predicate NoOverlap(paths: set<string>, ended: set<string>) {
    forall p, q :: p in paths - ended && q in paths - ended && p != q ==> !Overlaps(p, q)
  }

  class AllHealState {
    var healSeqMap: map<string, HealSequence>

    ghost predicate Valid()
      reads this, healSeqMap.Values
    {
      forall k :: k in healSeqMap ==> healSeqMap[k].path == k
    }

    /** The registered paths whose sequence has ended. */
    ghost function Ended(): set<string>
      reads this, healSeqMap.Values
    {
      set k | k in healSeqMap && healSeqMap[k].HasEnded()
    }

    /** The registry of `st` and its sequences are those of the map. */
    ghost predicate Shows(st: State)
      reads this, healSeqMap.Values
    {
      && st.registry.Keys == healSeqMap.Keys
      && forall k :: k in healSeqMap ==>
           st.registry[k] in st.sequences && st.sequences[st.registry[k]] == Shown(healSeqMap[k])
    }

    constructor ()
      ensures Valid() && healSeqMap == map[] && Shows(INIT)
    {
      healSeqMap := map[];
    }

    /**
     The locked part of LaunchNewHealSequence. The sequence is registered exactly when no
     registered sequence that still runs overlaps it; otherwise one that does is reported. For a
     new sequence that is the action of the run model.
    */
    method Launch(h: HealSequence, ghost st: State, ghost id: SeqId) returns (overlapping: Option<string>)
      requires Valid()
      modifies this
      ensures Valid()
      ensures overlapping == None <==>
              forall k :: k in old(healSeqMap) && !old(healSeqMap)[k].HasEnded() ==> !(k <= h.path) && !(h.path <= k)
      ensures overlapping.Some? ==>
                var k := overlapping.value;
                k in healSeqMap && !healSeqMap[k].HasEnded() && (k <= h.path || h.path <= k)
      ensures healSeqMap == if overlapping == None then old(healSeqMap)[h.path := h] else old(healSeqMap)
      ensures old(NoOverlap(healSeqMap.Keys, Ended())) ==> NoOverlap(healSeqMap.Keys, Ended())
      ensures old(Shows(st)) && id !in st.sequences && h.endTime == None ==>
                var a := Action.Launch(id, h.path, h.background, old(Ended()));
                && (overlapping == None <==> Enabled(st, a))
                && Shows(if overlapping == None then Step(st, a) else st)
    {
      var hpath := h.path;
      var rest := healSeqMap.Keys;
      while rest != {}
        invariant rest <= healSeqMap.Keys
        invariant forall k :: k in healSeqMap.Keys - rest && !healSeqMap[k].HasEnded() ==> !Overlaps(k, hpath)
        decreases rest
      {
        var k :| k in rest;
        if !healSeqMap[k].HasEnded() && Overlaps(k, hpath) {
          return Some(k);
        }
        rest := rest - {k};
      }
      healSeqMap := healSeqMap[hpath := h];
      return None;
    }

    /** The last critical section of stopHealSequence: deletion by path. */
    method DeleteStopped(path: string, ghost st: State, ghost thread: ThreadId)
      requires Valid()
      modifies this
      ensures Valid()
      ensures healSeqMap == old(healSeqMap) - {path}
      ensures old(NoOverlap(healSeqMap.Keys, Ended())) ==> NoOverlap(healSeqMap.Keys, Ended())
      ensures old(Shows(st)) && Enabled(st, EndStop(thread)) && st.stoppers[thread].path == path ==>
                Shows(Step(st, EndStop(thread)))
    {
      healSeqMap := healSeqMap - {path};
    }

    /** One tick of periodicHealSeqsClean. */
    method Clean(now: int, ghost st: State)
      requires Valid()
      modifies this
      ensures Valid()
      ensures healSeqMap.Keys <= old(healSeqMap.Keys)
      ensures forall k :: k in healSeqMap ==> healSeqMap[k] == old(healSeqMap)[k]
      ensures forall k :: k in old(healSeqMap) ==>
                (k !in healSeqMap <==>
                   old(healSeqMap)[k].HasEnded() && old(healSeqMap)[k].endTime.value + 600 < now)
      ensures old(Shows(st)) ==> Shows(Step(st, Action.Clean(now)))
    {
      var rest := healSeqMap.Keys;
      var all := healSeqMap;
      while rest != {}
        invariant Valid()
        invariant rest <= all.Keys
        invariant healSeqMap.Keys <= all.Keys
        invariant forall k :: k in healSeqMap ==> healSeqMap[k] == all[k]
        invariant forall k :: k in all ==>
                    (k !in healSeqMap <==>
                       k !in rest && all[k].HasEnded() && all[k].endTime.value + KEEP_SECONDS < now)
        decreases rest
      {
        var k :| k in rest;
        if healSeqMap[k].HasEnded() && healSeqMap[k].endTime.value + KEEP_SECONDS < now {
          healSeqMap := healSeqMap - {k};
        }
        rest := rest - {k};
      }
    }
  }

  /** What the run model keeps of a sequence object. */
  function Shown(h: HealSequence): Sequence
    reads h
  {
    Sequence(h.path, h.background, h.endTime)
  }

  // ---- Whole runs

  type SeqId = nat
  type ThreadId = nat

  datatype Sequence = Sequence(path: string, background: bool, endTime: Option<int>) {
    predicate HasEnded() { !background && endTime.Some? }
  }

  /** A request in stopHealSequence, between looking a sequence up and deleting its path. */
  datatype Stopper = Stopper(path: string, target: SeqId)

  datatype State = State(
    registry: map<string, SeqId>,
    sequences: map<SeqId, Sequence>,
    stoppers: map<ThreadId, Stopper>)

  const INIT := State(map[], map[], map[])

  ghost function EndedPaths(st: State): set<string>
    requires Registered(st)
  {
    set k | k in st.registry && st.sequences[st.registry[k]].HasEnded()
  }

  /** Every registered path names a launched sequence with that path. */
  ghost predicate Registered(st: State) {
    forall k :: k in st.registry ==> st.registry[k] in st.sequences && st.sequences[st.registry[k]].path == k
  }

  datatype Action =
    // `seenEnded` are the paths whose sequence the overlap loop found ended; sequences may end while it runs.
    | Launch(id: SeqId, path: string, background: bool, seenEnded: set<string>)
    | BeginStop(thread: ThreadId, path: string)
    | EndStop(thread: ThreadId)
    | Finish(id: SeqId, now: int)
    | Clean(now: int)

  predicate HasEnded(st: State, id: SeqId) { id in st.sequences && st.sequences[id].HasEnded() }

  predicate Runs(st: State, id: SeqId) { id in st.sequences && !st.sequences[id].HasEnded() }

  predicate Expired(st: State, path: string, now: int) {
    && path in st.registry
    && HasEnded(st, st.registry[path])
    && st.sequences[st.registry[path]].endTime.value + KEEP_SECONDS < now
  }

  ghost predicate Enabled(st: State, a: Action) {
    match a
    case Launch(id, path, _, seenEnded) =>
      && id !in st.sequences
      && (forall k :: k in seenEnded ==> k in st.registry && HasEnded(st, st.registry[k]))
      && MayLaunch(st.registry.Keys, seenEnded, path)
    case BeginStop(thread, path) => thread !in st.stoppers && path in st.registry
    case EndStop(thread) => thread in st.stoppers && HasEnded(st, st.stoppers[thread].target)
    case Finish(id, _) => id in st.sequences && st.sequences[id].endTime == None
    case Clean(_) => true
  }

  ghost function Step(st: State, a: Action): State
    requires Enabled(st, a)
  {
    match a
    case Launch(id, path, background, _) =>
      st.(registry := st.registry[path := id], sequences := st.sequences[id := Sequence(path, background, None)])
    case BeginStop(thread, path) =>
      st.(stoppers := st.stoppers[thread := Stopper(path, st.registry[path])])
    case EndStop(thread) =>
      st.(registry := st.registry - {st.stoppers[thread].path}, stoppers := st.stoppers - {thread})
    case Finish(id, now) =>
      st.(sequences := st.sequences[id := st.sequences[id].(endTime := Some(now))])
    case Clean(now) =>
      st.(registry := map k | k in st.registry && !Expired(st, k, now) :: st.registry[k])
  }

  ghost predicate ValidRun(st: State, run: seq<Action>)
    decreases run
  {
    run == [] || (Enabled(st, run[0]) && ValidRun(Step(st, run[0]), run[1..]))
  }

  ghost function Exec(st: State, run: seq<Action>): State
    requires ValidRun(st, run)
    decreases run
  {
    if run == [] then st else Exec(Step(st, run[0]), run[1..])
  }

  lemma {:induction false} RunExtends(st: State, run: seq<Action>, a: Action)
    requires ValidRun(st, run) && Enabled(Exec(st, run), a)
    ensures ValidRun(st, run + [a]) && Exec(st, run + [a]) == Step(Exec(st, run), a)
    decreases run
  {
    if run == [] {
      assert run + [a] == [a] && [a][1..] == [];
    } else {
      RunExtends(Step(st, run[0]), run[1..], a);
      assert (run + [a])[1..] == run[1..] + [a];
    }
  }

  // ---- Registered sequences never overlap

  ghost predicate Inv(st: State) {
    && Registered(st)
    && NoOverlap(st.registry.Keys, EndedPaths(st))
    && (forall t :: t in st.stoppers ==>
          st.stoppers[t].target in st.sequences && st.sequences[st.stoppers[t].target].path == st.stoppers[t].path)
  }

  lemma {:induction false} StepKeepsInv(st: State, a: Action)
    requires Inv(st) && Enabled(st, a)
    ensures Inv(Step(st, a))
  {
    var st' := Step(st, a);
    assert Registered(st');
    var before, after := st.registry.Keys - EndedPaths(st), st'.registry.Keys - EndedPaths(st');
    if a.Launch? {
      assert after <= before + {a.path};
      assert forall k :: k in before ==> k !in a.seenEnded;
    } else {
      assert after <= before;
    }
  }

  lemma {:induction false} RunKeepsInv(st: State, run: seq<Action>)
    requires Inv(st) && ValidRun(st, run)
    ensures Inv(Exec(st, run))
    decreases run
  {
    if run != [] {
      StepKeepsInv(st, run[0]);
      RunKeepsInv(Step(st, run[0]), run[1..]);
    }
  }

  /** In every run, of two registered sequences that have not ended neither path is a prefix of the other. */
  lemma {:induction false} RegisteredNeverOverlap(run: seq<Action>, p: string, q: string)
    requires ValidRun(INIT, run) && p != q
    requires p in Exec(INIT, run).registry && Runs(Exec(INIT, run), Exec(INIT, run).registry[p])
    requires q in Exec(INIT, run).registry && Runs(Exec(INIT, run), Exec(INIT, run).registry[q])
    ensures !(p <= q) && !(q <= p)
  {
    RunKeepsInv(INIT, run);
    assert !Overlaps(p, q);
  }

  /** The action deletes whatever is registered under the path. */
  predicate Deletes(st: State, a: Action, path: string) {
    a.EndStop? && a.thread in st.stoppers && st.stoppers[a.thread].path == path
  }

  ghost predicate NeverDeletes(st: State, run: seq<Action>, path: string)
    requires ValidRun(st, run)
    decreases run
  {
    run == [] || (!Deletes(st, run[0], path) && NeverDeletes(Step(st, run[0]), run[1..], path))
  }

  lemma {:induction false} EndedStaysEnded(st: State, run: seq<Action>, id: SeqId)
    requires ValidRun(st, run) && HasEnded(st, id)
    ensures HasEnded(Exec(st, run), id)
    decreases run
  {
    if run != [] {
      EndedStaysEnded(Step(st, run[0]), run[1..], id);
    }
  }

  /**
   A registered sequence that has not ended keeps its entry through every run of launches, ticks of
   the cleaner, stops and ends of other sequences, however many: only a deletion under its own path
   can take the entry away while it runs.
  */
  lemma {:induction false} RunningKeepsItsEntry(st: State, run: seq<Action>, path: string, id: SeqId)
    requires Inv(st) && ValidRun(st, run) && NeverDeletes(st, run, path)
    requires path in st.registry && st.registry[path] == id && Runs(Exec(st, run), id)
    ensures path in Exec(st, run).registry && Exec(st, run).registry[path] == id
    decreases run
  {
    if run != [] {
      var st' := Step(st, run[0]);
      StepKeepsInv(st, run[0]);
      if HasEnded(st', id) {
        EndedStaysEnded(st', run[1..], id);
      } else {
        assert Runs(st, id) && Overlaps(path, path);
        RunningKeepsItsEntry(st', run[1..], path, id);
      }
    }
  }

  lemma {:induction false} BackgroundRuns(st: State, run: seq<Action>, id: SeqId)
    requires ValidRun(st, run) && id in st.sequences && st.sequences[id].background
    ensures Runs(Exec(st, run), id)
    decreases run
  {
    if run != [] {
      BackgroundRuns(Step(st, run[0]), run[1..], id);
    }
  }

  /** A registered background sequence never counts as ended: it keeps its entry, whatever its end time. */
  lemma {:induction false} BackgroundKeepsItsEntry(st: State, run: seq<Action>, path: string, id: SeqId)
    requires Inv(st) && ValidRun(st, run) && NeverDeletes(st, run, path)
    requires path in st.registry && st.registry[path] == id && st.sequences[id].background
    ensures path in Exec(st, run).registry && Exec(st, run).registry[path] == id
  {
    BackgroundRuns(st, run, id);
    RunningKeepsItsEntry(st, run, path, id);
  }

  // ---- Running sequences may lose their registration

  /** Every sequence that has not ended is the one registered for its path. */
  ghost predicate AllRegistered(st: State) {
    forall id :: Runs(st, id) ==>
      st.sequences[id].path in st.registry && st.registry[st.sequences[id].path] == id
  }

  /** The action deletes the entry of a sequence that has not ended. */
  ghost predicate DeletesRunning(st: State, a: Action) {
    && a.EndStop? && a.thread in st.stoppers
    && st.stoppers[a.thread].path in st.registry
    && Runs(st, st.registry[st.stoppers[a.thread].path])
  }

  lemma {:induction false} StepRegistration(st: State, a: Action)
    requires Inv(st) && Enabled(st, a) && AllRegistered(st)
    ensures AllRegistered(Step(st, a)) <==> !DeletesRunning(st, a)
  {
    var st' := Step(st, a);
    if DeletesRunning(st, a) {
      var id := st.registry[st.stoppers[a.thread].path];
      assert Runs(st', id) && st'.sequences[id].path !in st'.registry;
    } else {
      forall id | Runs(st', id)
        ensures st'.sequences[id].path in st'.registry && st'.registry[st'.sequences[id].path] == id
      {
        if a.Launch? {
          if id != a.id {
            assert Runs(st, id);
            var k := st.sequences[id].path;
            assert k in st.registry && k !in a.seenEnded;
            assert !Overlaps(k, a.path);
          }
        } else {
          assert Runs(st, id);
        }
      }
    }
  }

  ghost predicate AlwaysRegistered(st: State, run: seq<Action>)
    requires ValidRun(st, run)
    decreases run
  {
    AllRegistered(st) && (run == [] || AlwaysRegistered(Step(st, run[0]), run[1..]))
  }

  ghost predicate NeverDeletesRunning(st: State, run: seq<Action>)
    requires ValidRun(st, run)
    decreases run
  {
    run == [] || (!DeletesRunning(st, run[0]) && NeverDeletesRunning(Step(st, run[0]), run[1..]))
  }

  /**
   All running sequences stay registered throughout a run if and only if no stop request in it
   finds, at its deletion, a sequence that has not ended under the path it stopped.
  */
  lemma {:induction false} RegistrationLostExactlyByDeletion(st: State, run: seq<Action>)
    requires Inv(st) && AllRegistered(st) && ValidRun(st, run)
    ensures AlwaysRegistered(st, run) <==> NeverDeletesRunning(st, run)
    decreases run
  {
    if run != [] {
      StepKeepsInv(st, run[0]);
      StepRegistration(st, run[0]);
      var st' := Step(st, run[0]);
      if AllRegistered(st') {
        RegistrationLostExactlyByDeletion(st', run[1..]);
      }
    }
  }

  /** A stop that still finds the sequence it stopped deletes nothing that runs. */
  lemma {:induction false} DeletionOfTheTargetIsSafe(st: State, thread: ThreadId)
    requires Inv(st) && Enabled(st, EndStop(thread))
    ensures var s := st.stoppers[thread];
            s.path !in st.registry || st.registry[s.path] == s.target ==> !DeletesRunning(st, EndStop(thread))
  {
  }

  /** While registration is kept, this holds of any two running sequences. */
  lemma {:induction false} RunningNeverOverlapWhileRegistered(run: seq<Action>, a: SeqId, b: SeqId)
    requires ValidRun(INIT, run) && NeverDeletesRunning(INIT, run)
    requires a != b && Runs(Exec(INIT, run), a) && Runs(Exec(INIT, run), b)
    ensures var st := Exec(INIT, run); var p, q := st.sequences[a].path, st.sequences[b].path;
            !(p <= q) && !(q <= p)
  {
    RegistrationLostExactlyByDeletion(INIT, run);
    AlwaysRegisteredAtEnd(INIT, run);
    RunKeepsInv(INIT, run);
    var st := Exec(INIT, run);
    RegisteredNeverOverlap(run, st.sequences[a].path, st.sequences[b].path);
  }

  /** Every stop, when it deletes, finds the sequence it stopped, or nothing. */
  ghost predicate StopsFindTheirTarget(st: State, run: seq<Action>)
    requires ValidRun(st, run)
    decreases run
  {
    run == [] ||
    (var a := run[0];
     (a.EndStop? ==>
        var s := st.stoppers[a.thread]; s.path !in st.registry || st.registry[s.path] == s.target) &&
     StopsFindTheirTarget(Step(st, a), run[1..]))
  }

  /** A stop that compares before it deletes is safe: then running sequences never lose their entry. */
  lemma {:induction false} ComparingStopsAreSafe(st: State, run: seq<Action>)
    requires Inv(st) && ValidRun(st, run) && StopsFindTheirTarget(st, run)
    ensures NeverDeletesRunning(st, run)
    decreases run
  {
    if run != [] {
      var a := run[0];
      if a.EndStop? {
        DeletionOfTheTargetIsSafe(st, a.thread);
      }
      StepKeepsInv(st, a);
      ComparingStopsAreSafe(Step(st, a), run[1..]);
    }
  }

  lemma {:induction false} AlwaysRegisteredAtEnd(st: State, run: seq<Action>)
    requires ValidRun(st, run) && AlwaysRegistered(st, run)
    ensures AllRegistered(Exec(st, run))
    decreases run
  {
    if run != [] {
      AlwaysRegisteredAtEnd(Step(st, run[0]), run[1..]);
    }
  }

  /**
   One stop request is enough to let two sequences run on one path: between the end of the sequence
   it stops and its deletion, a second sequence is launched on the ended path and loses its entry.
  */
  lemma {:induction false} StopAdmitsOverlap(path: string) returns (run: seq<Action>)
    ensures ValidRun(INIT, run)
    ensures var st := Exec(INIT, run);
            Runs(st, 2) && Runs(st, 3) && st.sequences[2].path == path == st.sequences[3].path
  {
    run := [];
    RunExtends(INIT, run, Launch(1, path, false, {}));
    run := run + [Launch(1, path, false, {})];
    RunExtends(INIT, run, BeginStop(1, path));
    run := run + [BeginStop(1, path)];
    RunExtends(INIT, run, Finish(1, 0));
    run := run + [Finish(1, 0)];
    RunExtends(INIT, run, Launch(2, path, false, {path}));
    run := run + [Launch(2, path, false, {path})];
    RunExtends(INIT, run, EndStop(1));
    run := run + [EndStop(1)];
    RunExtends(INIT, run, Launch(3, path, false, {}));
    run := run + [Launch(3, path, false, {})];
  }
}
