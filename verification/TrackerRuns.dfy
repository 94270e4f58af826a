/**
 What happens to the healing tracker of a disk over a whole heal: buckets are queued, walked
 and marked done, the tracker is saved to the disk, and after a crash it is loaded again.
*/
module TrackerRuns {
  import opened Common
  import opened MsgPack
  import opened TrackerCodec
  import opened RangeDelete

  // ---- The operations on the tracker's contents

  datatype Counters = Counters(objectsHealed: Uint64, objectsFailed: Uint64, bytesDone: Uint64, bytesFailed: Uint64)

  const NONE := Counters(0, 0, 0, 0)

  /** The sum as a uint64, which wraps around. */
  function Plus(a: Uint64, b: Uint64): Uint64 { if a + b < MAX_UINT64 then a + b else a + b - MAX_UINT64 }

  function Less(a: Uint64, b: Uint64): Uint64 { if b <= a then a - b else a - b + MAX_UINT64 }

  function Add(a: Counters, b: Counters): Counters {
    Counters(Plus(a.objectsHealed, b.objectsHealed), Plus(a.objectsFailed, b.objectsFailed),
             Plus(a.bytesDone, b.bytesDone), Plus(a.bytesFailed, b.bytesFailed))
  }

  function Minus(a: Counters, b: Counters): Counters {
    Counters(Less(a.objectsHealed, b.objectsHealed), Less(a.objectsFailed, b.objectsFailed),
             Less(a.bytesDone, b.bytesDone), Less(a.bytesFailed, b.bytesFailed))
  }

  /** The fields that change during a heal. */
  datatype Work = Work(
    id: Bytes, bucket: Bytes, objectName: Bytes,
    counters: Counters,       // ObjectsHealed, ObjectsFailed, BytesDone, BytesFailed
    resume: Counters,         // their Resume counterparts
    queued: seq<Bytes>, healed: seq<Bytes>)

  function CountersOf(t: Tracker): Counters {
    Counters(t[ObjectsHealed].uint64, t[ObjectsFailed].uint64, t[BytesDone].uint64, t[BytesFailed].uint64)
  }

  function ResumeOf(t: Tracker): Counters {
    Counters(t[ResumeObjectsHealed].uint64, t[ResumeObjectsFailed].uint64,
             t[ResumeBytesDone].uint64, t[ResumeBytesFailed].uint64)
  }

  function WorkOf(t: Tracker): Work {
    Work(t[ID].text, t[Bucket].text, t[Key.Object].text, CountersOf(t), ResumeOf(t),
         t[QueuedBuckets].texts, t[HealedBuckets].texts)
  }

  function CounterFields(c: Counters): (f: Assignments)
    ensures WellKinded(f)
  {
    map[ObjectsHealed := Uint(c.objectsHealed), ObjectsFailed := Uint(c.objectsFailed),
        BytesDone := Uint(c.bytesDone), BytesFailed := Uint(c.bytesFailed)]
  }

  function ResumeFields(c: Counters): (f: Assignments)
    ensures WellKinded(f)
  {
    map[ResumeObjectsHealed := Uint(c.objectsHealed), ResumeObjectsFailed := Uint(c.objectsFailed),
        ResumeBytesDone := Uint(c.bytesDone), ResumeBytesFailed := Uint(c.bytesFailed)]
  }

  function TextFields(w: Work): (f: Assignments)
    ensures WellKinded(f)
  {
    map[ID := Text(w.id), Bucket := Text(w.bucket), Key.Object := Text(w.objectName),
        QueuedBuckets := Texts(w.queued), HealedBuckets := Texts(w.healed)]
  }

  /** The tracker `t` with the changing fields set from `w`. */
  function Put(t: Tracker, w: Work): Tracker {
    SetAll(SetAll(SetAll(t, TextFields(w)), ResumeFields(w.resume)), CounterFields(w.counters))
  }

  lemma {:induction false} WorkAfterTexts(t: Tracker, w: Work)
    ensures WorkOf(SetAll(t, TextFields(w))) == w.(counters := CountersOf(t), resume := ResumeOf(t))
  {
  }

  lemma {:induction false} WorkAfterResume(t: Tracker, c: Counters)
    ensures WorkOf(SetAll(t, ResumeFields(c))) == WorkOf(t).(resume := c)
  {
  }

  lemma {:induction false} WorkAfterCounters(t: Tracker, c: Counters)
    ensures WorkOf(SetAll(t, CounterFields(c))) == WorkOf(t).(counters := c)
  {
  }

  lemma {:induction false} WorkAfterPut(t: Tracker, w: Work)
    ensures WorkOf(Put(t, w)) == w
  {
    var t1 := SetAll(t, TextFields(w));
    WorkAfterTexts(t, w);
    WorkAfterResume(t1, w.resume);
    WorkAfterCounters(SetAll(t1, ResumeFields(w.resume)), w.counters);
  }

  function Resumed(w: Work): Work { w.(counters := w.resume) }

  /** bucketDone, for a queue in which the deletion loop does not panic. */
  function Done(w: Work, bucket: Bytes): Work {
    w.(resume := w.counters, healed := w.healed + [bucket], queued := Sweep(w.queued, b => b == bucket))
  }

  /** The deletion loop of bucketDone slices out of range. */
  predicate DonePanics(w: Work, bucket: Bytes) { Ranged(w.queued, b => b == bucket, false) == None }

  function Requeued(w: Work, buckets: seq<Bytes>): Work {
    w.(queued := Without(buckets, b => b in w.healed))
  }

  /** How healErasureSet enters a bucket: it resumes only when it was last in another one. */
  function Entered(w: Work, bucket: Bytes): Work {
    var w' := if w.bucket != [] && w.bucket != bucket then Resumed(w) else w;
    w'.(objectName := [], bucket := bucket)
  }

  /** The end of healErasureSet: no bucket is worked on any more. */
  function Left(w: Work): Work { w.(bucket := [], objectName := []) }

  datatype LoadError = Undecodable(error: Error) | DiskIdMismatch

  /** loadHealingTracker on the bytes found on a disk with the given identifier. */
  function Load(b: Bytes, diskId: Bytes): Result<Tracker, LoadError> {
    match Unmarshal(ZeroTracker(), b)
    case Err(e) => Err(Undecodable(e))
    case Ok((t, _)) => Identified(t, diskId)
  }

  function Identified(t: Tracker, diskId: Bytes): Result<Tracker, LoadError> {
    if t[ID].text != diskId && t[ID].text != [] then Err(DiskIdMismatch) else Ok(t[ID := Text(diskId)])
  }

  /** Loading what was saved gives the tracker back, or the mismatch of disk identifiers. */
  lemma {:induction false} LoadAfterSave(t: Tracker, diskId: Bytes)
    requires FitsTracker(t)
    ensures Load(Marshal(t), diskId) ==
            if t[ID].text == diskId || t[ID].text == [] then Ok(t[ID := Text(diskId)]) else Err(DiskIdMismatch)
  {
    assert Marshal(t) + [] == Marshal(t);
    UnmarshalAfterMarshal(ZeroTracker(), t, []);
  }

  // ---- Bookkeeping of the queue

  predicate Distinct(q: seq<Bytes>) {
    forall i, j :: 0 <= i < j < |q| ==> q[i] != q[j]
  }

  lemma {:induction false} DistinctIsSafe(q: seq<Bytes>, bucket: Bytes)
    requires Distinct(q)
    ensures !LastHitAgain(q, b => b == bucket) && !AdjacentHits(q, b => b == bucket)
  {
  }

  /**
   The exact condition on the queue: the deletion loop of bucketDone ends and leaves exactly the other
   buckets if and only if the bucket is nowhere queued twice with the second occurrence right behind
   the first or at the end.
  */
  lemma {:induction false} DoneRemovesExactlyWhen(q: seq<Bytes>, bucket: Bytes)
    ensures var hit := (b: Bytes) => b == bucket;
            Ranged(q, hit, false) == Some(Without(q, hit)) <==>
            forall i, j :: 0 <= i < j < |q| && q[i] == bucket && q[j] == bucket ==> j > i + 1 && j < |q| - 1
  {
    var hit := (b: Bytes) => b == bucket;
    SweepRemovesAllUnlessAdjacent(q, hit);
    if LastHitAgain(q, hit) {
      var i :| 0 <= i < |q| - 1 && hit(q[i]);
      assert q[i] == bucket && q[|q| - 1] == bucket;
    }
    if AdjacentHits(q, hit) {
      var i :| 0 <= i < |q| - 1 && hit(q[i]) && hit(q[i + 1]);
      assert q[i] == bucket && q[i + 1] == bucket;
    }
  }

  /** The shortest queue on which bucketDone panics. */
  lemma {:induction false} DuplicatePanics(w: Work, bucket: Bytes)
    requires w.queued == [bucket, bucket]
    ensures DonePanics(w, bucket)
  {
    assert w.queued[0] == bucket;
  }

  lemma {:induction false} WithoutDistinct(q: seq<Bytes>, hit: Bytes -> bool)
    requires Distinct(q)
    ensures Distinct(Without(q, hit))
  {
    if q != [] {
      assert forall i, j :: 0 <= i < j < |q[1..]| ==> q[1..][i] == q[i + 1] && q[1..][j] == q[j + 1];
      WithoutDistinct(q[1..], hit);
      WithoutMembers(q[1..], hit, q[0]);
      assert q[0] !in q[1..];
    }
  }

  datatype QueueAction = SetQueued(buckets: seq<Bytes>) | MarkDone(bucket: Bytes)

  ghost predicate DistinctLists(run: seq<QueueAction>) {
    forall i :: 0 <= i < |run| && run[i].SetQueued? ==> Distinct(run[i].buckets)
  }

  function QueueStep(w: Work, a: QueueAction): Work {
    match a
    case SetQueued(buckets) => Requeued(w, buckets)
    case MarkDone(bucket) => Done(w, bucket)
  }

  /** The tracker after a run, and the list of the last setQueuedBuckets call in it. */
  function QueueRun(w: Work, listed: seq<Bytes>, run: seq<QueueAction>): (Work, seq<Bytes>)
    decreases run
  {
    if run == [] then (w, listed)
    else QueueRun(QueueStep(w, run[0]), if run[0].SetQueued? then run[0].buckets else listed, run[1..])
  }

  ghost predicate QueueInv(w: Work, listed: seq<Bytes>) {
    && Distinct(w.queued)
    && (forall b :: b in w.queued ==> b !in w.healed)
    && (forall b :: b in listed ==> b in w.queued || b in w.healed)
  }

  lemma {:induction false} QueueStepKeepsInv(w: Work, listed: seq<Bytes>, a: QueueAction)
    requires QueueInv(w, listed) && (a.SetQueued? ==> Distinct(a.buckets))
    ensures QueueInv(QueueStep(w, a), if a.SetQueued? then a.buckets else listed)
  {
    match a {
      case SetQueued(buckets) =>
        var hit := (b: Bytes) => b in w.healed;
        WithoutDistinct(buckets, hit);
        forall b: Bytes {
          WithoutMembers(buckets, hit, b);
        }
      case MarkDone(bucket) =>
        var hit := (b: Bytes) => b == bucket;
        DistinctIsSafe(w.queued, bucket);
        SweepRemovesAllUnlessAdjacent(w.queued, hit);
        WithoutDistinct(w.queued, hit);
        forall b: Bytes {
          WithoutMembers(w.queued, hit, b);
        }
    }
  }

  lemma {:induction false} QueueRunKeepsInv(w: Work, listed: seq<Bytes>, run: seq<QueueAction>)
    requires QueueInv(w, listed) && DistinctLists(run)
    ensures var (w', listed') := QueueRun(w, listed, run); QueueInv(w', listed')
    decreases run
  {
    if run != [] {
      QueueStepKeepsInv(w, listed, run[0]);
      assert DistinctLists(run[1..]) by {
        assert forall i :: 0 <= i < |run[1..]| ==> run[1..][i] == run[i + 1];
      }
      QueueRunKeepsInv(QueueStep(w, run[0]), if run[0].SetQueued? then run[0].buckets else listed, run[1..]);
    }
  }

  /**
   Over every run of setQueuedBuckets, on lists of distinct names, and bucketDone, from a tracker
   with an empty queue or, whatever was loaded, when the run starts with setQueuedBuckets: the queue
   has no duplicates and shares no bucket with the healed ones, every bucket last listed is in one
   of the two, and no bucketDone can panic.
  */
  lemma {:induction false} NoBucketIsForgotten(w: Work, run: seq<QueueAction>)
    requires w.queued == [] || (run != [] && run[0].SetQueued?)
    requires forall a :: a in run && a.SetQueued? ==>
               forall i, j :: 0 <= i < j < |a.buckets| ==> a.buckets[i] != a.buckets[j]
    ensures var (w', listed) := QueueRun(w, [], run);
            && (forall i, j :: 0 <= i < j < |w'.queued| ==> w'.queued[i] != w'.queued[j])
            && (forall b :: b in w'.queued ==> b !in w'.healed)
            && (forall b :: b in listed ==> b in w'.queued || b in w'.healed)
            && forall b :: !DonePanics(w', b)
  {
    assert DistinctLists(run);
    if w.queued != [] {
      // The first list replaces whatever queue was loaded.
      var blank := w.(queued := []);
      assert QueueStep(w, run[0]) == QueueStep(blank, run[0]);
      QueueRunKeepsInv(blank, [], run);
    } else {
      QueueRunKeepsInv(w, [], run);
    }
    var (w', listed) := QueueRun(w, [], run);
    forall b ensures !DonePanics(w', b) {
      DistinctIsSafe(w'.queued, b);
    }
  }

  // ---- Saving and loading

  /** A way of persisting the changing fields, and what fits into it. */
  datatype Store = Store(write: Work -> Bytes, read: (Bytes, Bytes) -> Option<Work>, fits: Work -> bool)

  /** What was written is there again, if the disk is the one it was written for. */
  function Recovered(w: Work, diskId: Bytes): Option<Work> {
    if w.id == diskId || w.id == [] then Some(w.(id := diskId)) else None
  }

  ghost predicate Faithful(store: Store) {
    forall w, diskId :: store.fits(w) ==> store.read(store.write(w), diskId) == Recovered(w, diskId)
  }

  function ReadWork(b: Bytes, diskId: Bytes): Option<Work> {
    match Load(b, diskId)
    case Err(_) => None
    case Ok(t) => Some(WorkOf(t))
  }

  /** MarshalMsg and loadHealingTracker; `rest` holds the fields that do not change. */
  function TrackerStore(rest: Tracker): Store {
    Store(w => Marshal(Put(rest, w)), ReadWork, w => FitsTracker(Put(rest, w)))
  }

  lemma {:induction false} WorkWithId(t: Tracker, diskId: Bytes)
    ensures WorkOf(t[ID := Text(diskId)]) == WorkOf(t).(id := diskId)
  {
  }

  lemma {:induction false} ReadSavedWork(t: Tracker, w: Work, diskId: Bytes)
    requires FitsTracker(t) && WorkOf(t) == w
    ensures ReadWork(Marshal(t), diskId) == Recovered(w, diskId)
  {
    LoadAfterSave(t, diskId);
    WorkWithId(t, diskId);
  }

  lemma {:induction false} ReadPutWork(rest: Tracker, w: Work, diskId: Bytes)
    requires FitsTracker(Put(rest, w))
    ensures ReadWork(Marshal(Put(rest, w)), diskId) == Recovered(w, diskId)
  {
    WorkAfterPut(rest, w);
    ReadSavedWork(Put(rest, w), w, diskId);
  }

  lemma {:induction false} FaithfulIfEachIs(store: Store)
    requires forall w, diskId | store.fits(w) :: store.read(store.write(w), diskId) == Recovered(w, diskId)
    ensures Faithful(store)
  {
  }

  /** The codec and the identifier check of the tracker make a faithful store. */
  lemma {:induction false} TrackerStoreIsFaithful(rest: Tracker)
    ensures Faithful(TrackerStore(rest))
  {
    var store := TrackerStore(rest);
    forall w, diskId | store.fits(w) ensures store.read(store.write(w), diskId) == Recovered(w, diskId) {
      ReadPutWork(rest, w, diskId);
    }
    FaithfulIfEachIs(store);
  }

  // ---- What the counters mean after a crash

  /**
   Facts about the past that the tracker does not store: what was credited to each healed
   bucket, what was walked since the current walk began, and what the counters held beyond the
   resume numbers at that moment. A walk begins when a bucket is entered or done, and when a
   tracker is loaded.
  */
  datatype Past = Past(credits: seq<Counters>, walked: Counters, carried: Counters)

  datatype Disk = Empty | Saved(bytes: Bytes, past: Past)

  datatype State = State(work: Work, past: Past, disk: Disk)

  datatype Action =
    | Enter(bucket: Bytes)
    | Progress(delta: Counters)
    | Finish(bucket: Bytes)
    | Save
    | CrashAndLoad(diskId: Bytes)
    | EndHeal

  function NewWork(diskId: Bytes): Work { Work(diskId, [], [], NONE, NONE, [], []) }

  const NO_PAST := Past([], NONE, NONE)

  function Start(diskId: Bytes): State { State(NewWork(diskId), NO_PAST, Empty) }

  predicate Enabled(store: Store, st: State, a: Action) { a.Save? ==> store.fits(st.work) }

  function Beginning(past: Past, w: Work): Past {
    past.(walked := NONE, carried := Minus(w.counters, w.resume))
  }

  /** The contents found on the disk, if they load; otherwise the tracker is made anew. */
  function Reload(store: Store, st: State, diskId: Bytes): State {
    var found := if st.disk.Saved? then store.read(st.disk.bytes, diskId) else None;
    match found
    case None => st.(work := NewWork(diskId), past := NO_PAST)
    case Some(w) => st.(work := w, past := Beginning(st.disk.past, w))
  }

  function Step(store: Store, st: State, a: Action): State
    requires Enabled(store, st, a)
  {
    var w, past := st.work, st.past;
    match a
    case Enter(bucket) => st.(work := Entered(w, bucket), past := Beginning(past, Entered(w, bucket)))
    case Progress(delta) =>
      st.(work := w.(counters := Add(w.counters, delta)), past := past.(walked := Add(past.walked, delta)))
    case Finish(bucket) =>
      st.(work := Done(w, bucket),
          past := Past(past.credits + [Minus(w.counters, w.resume)], NONE, NONE))
    case Save => st.(disk := Saved(store.write(w), past))
    case CrashAndLoad(diskId) => Reload(store, st, diskId)
    case EndHeal => st.(work := Left(w))
  }

  predicate ValidRun(store: Store, st: State, run: seq<Action>)
    decreases run
  {
    run == [] || (Enabled(store, st, run[0]) && ValidRun(store, Step(store, st, run[0]), run[1..]))
  }

  function Exec(store: Store, st: State, run: seq<Action>): State
    requires ValidRun(store, st, run)
    decreases run
  {
    if run == [] then st else Exec(store, Step(store, st, run[0]), run[1..])
  }

  function Sum(cs: seq<Counters>): Counters {
    if cs == [] then NONE else Add(Sum(cs[..|cs| - 1]), cs[|cs| - 1])
  }

  /** One credit per healed bucket, and the resume numbers are their sum. */
  predicate Accounts(w: Work, past: Past) {
    && |past.credits| == |w.healed|
    && w.resume == Sum(past.credits)
    && Minus(w.counters, w.resume) == Add(past.carried, past.walked)
  }

  ghost predicate DiskAccounts(store: Store, disk: Disk) {
    disk.Saved? ==> exists w :: store.fits(w) && disk.bytes == store.write(w) && Accounts(w, disk.past)
  }

  ghost predicate Inv(store: Store, st: State) { Accounts(st.work, st.past) && DiskAccounts(store, st.disk) }

  lemma {:induction false} AddThenMinus(a: Counters, delta: Counters, r: Counters)
    ensures Minus(Add(a, delta), r) == Add(Minus(a, r), delta)
    ensures Add(r, Minus(a, r)) == a
  {
  }

  lemma {:induction false} AddAssociates(a: Counters, b: Counters, c: Counters)
    ensures Add(a, Add(b, c)) == Add(Add(a, b), c)
  {
  }

  lemma {:induction false} AddNone(c: Counters)
    ensures Add(c, NONE) == c && Minus(c, c) == NONE
  {
  }

  lemma {:induction false} BeginningAccounts(w: Work, past: Past)
    requires |past.credits| == |w.healed| && w.resume == Sum(past.credits)
    ensures Accounts(w, Beginning(past, w))
  {
    AddNone(Minus(w.counters, w.resume));
  }

  lemma {:induction false} FinishAccounts(w: Work, past: Past, bucket: Bytes)
    requires Accounts(w, past)
    ensures Accounts(Done(w, bucket), Past(past.credits + [Minus(w.counters, w.resume)], NONE, NONE))
  {
    var credit := Minus(w.counters, w.resume);
    assert (past.credits + [credit])[..|past.credits|] == past.credits;
    AddThenMinus(w.counters, NONE, w.resume);
    AddNone(w.counters);
    AddNone(NONE);
  }

  lemma {:induction false} ReloadAccounts(store: Store, st: State, diskId: Bytes)
    requires Faithful(store) && Inv(store, st)
    ensures Accounts(Reload(store, st, diskId).work, Reload(store, st, diskId).past)
  {
    AddNone(NONE);
    if st.disk.Saved? {
      var w :| store.fits(w) && st.disk.bytes == store.write(w) && Accounts(w, st.disk.past);
      assert store.read(store.write(w), diskId) == Recovered(w, diskId);
      BeginningAccounts(w.(id := diskId), st.disk.past);
    }
  }

  lemma {:induction false} StepKeepsInv(store: Store, st: State, a: Action)
    requires Faithful(store) && Inv(store, st) && Enabled(store, st, a)
    ensures Inv(store, Step(store, st, a))
  {
    var w, past := st.work, st.past;
    match a {
      case Enter(bucket) => BeginningAccounts(Entered(w, bucket), past);
      case Progress(delta) =>
        AddThenMinus(w.counters, delta, w.resume);
        AddAssociates(past.carried, past.walked, delta);
      case Finish(bucket) => FinishAccounts(w, past, bucket);
      case Save =>
      case CrashAndLoad(diskId) => ReloadAccounts(store, st, diskId);
      case EndHeal =>
    }
  }

  lemma {:induction false} RunKeepsInv(store: Store, st: State, run: seq<Action>)
    requires Faithful(store) && Inv(store, st) && ValidRun(store, st, run)
    ensures Inv(store, Exec(store, st, run))
    decreases run
  {
    if run != [] {
      StepKeepsInv(store, st, run[0]);
      RunKeepsInv(store, Step(store, st, run[0]), run[1..]);
    }
  }

  // ---- The bucket worked on, as the actions tell it

  /**
   The identifier and the bucket of the tracker in memory, and of the one on the disk, if any: the
   bucket last entered, or the one that was being worked on at the save that was loaded.
  */
  datatype Trail = Trail(id: Bytes, here: Bytes, saved: Option<(Bytes, Bytes)>)

  function TrailStep(t: Trail, a: Action): Trail {
    match a
    case Enter(bucket) => t.(here := bucket)
    case EndHeal => t.(here := [])
    case Save => t.(saved := Some((t.id, t.here)))
    case CrashAndLoad(diskId) =>
      var loads := t.saved.Some? && (t.saved.value.0 == diskId || t.saved.value.0 == []);
      t.(id := diskId, here := if loads then t.saved.value.1 else [])
    case _ => t
  }

  function TrailOf(t: Trail, run: seq<Action>): Trail
    decreases run
  {
    if run == [] then t else TrailOf(TrailStep(t, run[0]), run[1..])
  }

  /** The bucket that the run leaves the tracker in; empty if none. */
  function LastBucket(diskId: Bytes, run: seq<Action>): Bytes { TrailOf(Trail(diskId, [], None), run).here }

  predicate SavedAs(store: Store, bytes: Bytes, w: Work, saved: (Bytes, Bytes)) {
    store.fits(w) && bytes == store.write(w) && w.id == saved.0 && w.bucket == saved.1
  }

  ghost predicate OnTrail(store: Store, st: State, t: Trail) {
    && st.work.id == t.id && st.work.bucket == t.here
    && (st.disk.Saved? <==> t.saved.Some?)
    && (st.disk.Saved? ==>
          exists w :: SavedAs(store, st.disk.bytes, w, t.saved.value))
  }

  lemma {:induction false} StepOnTrail(store: Store, st: State, t: Trail, a: Action)
    requires Faithful(store) && Enabled(store, st, a) && OnTrail(store, st, t)
    ensures OnTrail(store, Step(store, st, a), TrailStep(t, a))
  {
    if a.Save? {
      assert SavedAs(store, store.write(st.work), st.work, (t.id, t.here));
    }
    if a.CrashAndLoad? && st.disk.Saved? {
      var w :| SavedAs(store, st.disk.bytes, w, t.saved.value);
      assert store.read(store.write(w), a.diskId) == Recovered(w, a.diskId);
    }
  }

  lemma {:induction false} RunOnTrail(store: Store, st: State, t: Trail, run: seq<Action>)
    requires Faithful(store) && ValidRun(store, st, run) && OnTrail(store, st, t)
    ensures OnTrail(store, Exec(store, st, run), TrailOf(t, run))
    decreases run
  {
    if run != [] {
      StepOnTrail(store, st, t, run[0]);
      RunOnTrail(store, Step(store, st, run[0]), TrailStep(t, run[0]), run[1..]);
    }
  }

  /** Entering this bucket after the run throws away what the counters hold beyond the resume numbers. */
  predicate Resumes(diskId: Bytes, run: seq<Action>, bucket: Bytes) {
    LastBucket(diskId, run) != [] && LastBucket(diskId, run) != bucket
  }

  lemma {:induction false} EnteredCounters(store: Store, diskId: Bytes, run: seq<Action>, bucket: Bytes)
    requires Faithful(store) && ValidRun(store, Start(diskId), run)
    ensures var w := Exec(store, Start(diskId), run).work;
            Entered(w, bucket).counters == if Resumes(diskId, run, bucket) then w.resume else w.counters
  {
    RunOnTrail(store, Start(diskId), Trail(diskId, [], None), run);
  }

  /**
   Over any number of progress, bucketDone, save, crash-and-load and bucket-entering steps, with
   any faithful store: the counters right after entering a bucket are the totals credited to the
   buckets in HealedBuckets if and only if another bucket was entered or loaded before, or there
   was nothing to throw away.
  */
  lemma {:induction false} CountersAfterEntering(store: Store, diskId: Bytes, run: seq<Action>, bucket: Bytes)
    requires Faithful(store) && ValidRun(store, Start(diskId), run)
    ensures var st := Exec(store, Start(diskId), run);
            && |st.past.credits| == |st.work.healed|
            && (Step(store, st, Enter(bucket)).work.counters == Sum(st.past.credits) <==>
                Resumes(diskId, run, bucket) || st.work.counters == st.work.resume)
  {
    AddNone(NONE);
    RunKeepsInv(store, Start(diskId), run);
    EnteredCounters(store, diskId, run, bucket);
  }

  /** A walk of one bucket: progress and saves. */
  ghost predicate IsWalk(run: seq<Action>) { forall a :: a in run ==> a.Progress? || a.Save? }

  lemma {:induction false} WalkKeeps(store: Store, st: State, run: seq<Action>)
    requires ValidRun(store, st, run) && IsWalk(run)
    ensures var end := Exec(store, st, run);
            && end.work.resume == st.work.resume && end.work.bucket == st.work.bucket
            && end.past.credits == st.past.credits
    decreases run
  {
    if run != [] {
      assert run[0] in run;
      WalkKeeps(store, Step(store, st, run[0]), run[1..]);
    }
  }

  /** All that was walked. */
  function Walked(run: seq<Action>): Counters
    decreases run
  {
    if run == [] then NONE else Add(if run[0].Progress? then run[0].delta else NONE, Walked(run[1..]))
  }

  lemma {:induction false} WalkCounts(store: Store, st: State, run: seq<Action>)
    requires ValidRun(store, st, run) && IsWalk(run)
    ensures Exec(store, st, run).work.counters == Add(st.work.counters, Walked(run))
    decreases run
  {
    AddNone(st.work.counters);
    if run != [] {
      var st', delta := Step(store, st, run[0]), if run[0].Progress? then run[0].delta else NONE;
      assert run[0] in run;
      WalkCounts(store, st', run[1..]);
      AddAssociates(st.work.counters, delta, Walked(run[1..]));
    }
  }

  lemma {:induction false} CreditAfterWalk(c: Counters, resume: Counters, walked: Counters)
    ensures Minus(Add(c, walked), resume) == walked <==> c == resume
  {
  }

  /** Leaving a bucket for another one throws away what was not finished, whatever was walked. */
  lemma {:induction false} NextBucketResumes(store: Store, st: State, a: Bytes, walk: seq<Action>, b: Bytes)
    requires a != [] && a != b && IsWalk(walk) && ValidRun(store, Step(store, st, Enter(a)), walk)
    ensures var w := Step(store, Exec(store, Step(store, st, Enter(a)), walk), Enter(b)).work;
            w.bucket == b && w.objectName == [] && w.counters == w.resume == st.work.resume
  {
    WalkKeeps(store, Step(store, st, Enter(a)), walk);
  }

  /**
   What a bucket is credited with when it is done, over every history before it is entered and every
   walk of it: exactly its own walk if and only if another bucket was entered or loaded before, or
   the counters already stood at the resume numbers.
  */
  lemma {:induction false} CreditIsOwnWork(
      store: Store, diskId: Bytes, run: seq<Action>, bucket: Bytes, walk: seq<Action>)
    requires Faithful(store) && ValidRun(store, Start(diskId), run) && IsWalk(walk)
    requires ValidRun(store, Step(store, Exec(store, Start(diskId), run), Enter(bucket)), walk)
    ensures var before := Exec(store, Start(diskId), run);
            var done := Step(store, Exec(store, Step(store, before, Enter(bucket)), walk), Finish(bucket));
            && |done.past.credits| == |before.past.credits| + 1
            && (done.past.credits[|before.past.credits|] == Walked(walk) <==>
                  Resumes(diskId, run, bucket) || before.work.counters == before.work.resume)
  {
    var before := Exec(store, Start(diskId), run);
    var entered := Step(store, before, Enter(bucket));
    var end := Exec(store, entered, walk);
    EnteredCounters(store, diskId, run, bucket);
    WalkKeeps(store, entered, walk);
    WalkCounts(store, entered, walk);
    CreditAfterWalk(entered.work.counters, entered.work.resume, Walked(walk));
    assert Step(store, end, Finish(bucket)).past.credits ==
           before.past.credits + [Minus(end.work.counters, end.work.resume)];
  }

  lemma {:induction false} RunExtends(store: Store, st: State, run: seq<Action>, a: Action)
    requires ValidRun(store, st, run) && Enabled(store, Exec(store, st, run), a)
    ensures ValidRun(store, st, run + [a])
    ensures Exec(store, st, run + [a]) == Step(store, Exec(store, st, run), a)
    decreases run
  {
    if run == [] {
      assert run + [a] == [a] && [a][1..] == [];
    } else {
      RunExtends(store, Step(store, st, run[0]), run[1..], a);
      assert (run + [a])[1..] == run[1..] + [a];
    }
  }

  const ONE_OBJECT := Counters(1, 0, 0, 0)

  /**
   A crash in the middle of a bucket counts work twice: after a reload into the same bucket the
   one object walked again is credited as two.
  */
  lemma {:induction false} CrashInsideBucketCountsTwice(
      store: Store, diskId: Bytes, bucket: Bytes) returns (run: seq<Action>)
    requires Faithful(store) && bucket != []
    requires store.fits(Entered(NewWork(diskId), bucket).(counters := ONE_OBJECT))
    ensures ValidRun(store, Start(diskId), run)
    ensures var st := Exec(store, Start(diskId), run);
            st.past.walked == ONE_OBJECT && Minus(st.work.counters, st.work.resume) == Counters(2, 0, 0, 0)
  {
    run := [];
    RunExtends(store, Start(diskId), run, Enter(bucket));
    run := run + [Enter(bucket)];
    RunExtends(store, Start(diskId), run, Progress(ONE_OBJECT));
    run := run + [Progress(ONE_OBJECT)];
    ghost var w := Exec(store, Start(diskId), run).work;
    RunExtends(store, Start(diskId), run, Save);
    run := run + [Save];
    assert store.read(store.write(w), diskId) == Recovered(w, diskId);
    RunExtends(store, Start(diskId), run, CrashAndLoad(diskId));
    run := run + [CrashAndLoad(diskId)];
    RunExtends(store, Start(diskId), run, Enter(bucket));
    run := run + [Enter(bucket)];
    RunExtends(store, Start(diskId), run, Progress(ONE_OBJECT));
    run := run + [Progress(ONE_OBJECT)];
  }
}
