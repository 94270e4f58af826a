/**
 The core of the multi-object delete handler: each entry of the request is vetted, the accepted
 ones are deduplicated through a map from the entry to the index of its first occurrence, the
 backend deletes the keys of that map in whatever order the map yields them, and each answer is
 placed at the index that the map gives for the record the backend returned.
*/
module MultiDelete {
  import opened Common

  datatype ObjectToDelete = ObjectToDelete(
    name: string, versionID: string, markerReplication: string, purgeStatus: string,
    markerVersionID: string, purgeTransitioned: string)

  datatype DeletedObject = DeletedObject(
    deleteMarker: bool, markerVersionID: string, name: string, versionID: string,
    markerReplication: string, markerTime: int, purgeStatus: string, purgeTransitioned: string)

  datatype DeleteError = DeleteError(code: string, message: string, key: string, versionID: string)

  datatype ApiError = ApiError(code: string, description: string)

  const NO_OBJECT := DeletedObject(false, "", "", "", "", 0, "", "")
  const NO_ERROR := DeleteError("", "", "", "")
  const NULL_VERSION := "null"
  const PENDING := "PENDING"
  const NO_SUCH_VERSION := ApiError("NoSuchVersion", "The specified version does not exist.")

  // ---- Vetting one entry

  datatype Config = Config(replicateDeletes: bool, hasLock: bool, hasLifecycle: bool)

  /** `Fatal` ends the whole request: a bad signature or access key. */
  datatype Auth = Allowed | Denied(e: ApiError) | Fatal

  /** What the code around the handler answers about one entry. */
  datatype Facts = Facts(
    auth: Auth,
    versionParses: bool,
    transition: Option<string>,  // the transition status, if the object's information was found
    replicate: bool,
    replicateAuth: Auth,
    retention: Option<ApiError>)

  datatype Vetting = Abort | Rejected(error: DeleteError) | Unreported | Admitted(entry: ObjectToDelete)

  function ErrorFor(e: ApiError, o: ObjectToDelete): DeleteError {
    DeleteError(e.code, e.description, o.name, o.versionID)
  }

  function Vet(cfg: Config, f: Facts, o: ObjectToDelete): Vetting {
    if f.auth == Fatal then Abort
    else if f.auth.Denied? then Rejected(ErrorFor(f.auth.e, o))
    else if o.versionID != "" && o.versionID != NULL_VERSION && !f.versionParses then
      Rejected(ErrorFor(NO_SUCH_VERSION, o))
    else
      var o1 := if cfg.hasLifecycle && f.transition.Some? then o.(purgeTransitioned := f.transition.value) else o;
      var replicate := cfg.replicateDeletes && f.replicate;
      if replicate && f.replicateAuth == Fatal then Abort
      else if replicate && f.replicateAuth.Denied? then Unreported
      else
        var o2 :=
          if !replicate then o1
          else if o1.versionID != "" then o1.(purgeStatus := PENDING)
          else o1.(markerReplication := PENDING);
        if o2.versionID != "" && cfg.hasLock && f.retention.Some? then Rejected(ErrorFor(f.retention.value, o2))
        else Admitted(o2)
  }

  /** The version is not given, or "null", or a UUID. */
  predicate VersionOk(f: Facts, o: ObjectToDelete) { o.versionID in {"", "null"} || f.versionParses }

  /** The deletion is to be replicated. */
  predicate Replicated(cfg: Config, f: Facts) { cfg.replicateDeletes && f.replicate }

  /** A lock holds the version. */
  predicate Retained(cfg: Config, f: Facts, o: ObjectToDelete) {
    cfg.hasLock && o.versionID != "" && f.retention.Some?
  }

  /**
   Exactly when an entry is admitted, dropped without a report, rejected or ends the request, and
   which error a rejection records.
  */
  lemma {:induction false} VettingDecides(cfg: Config, f: Facts, o: ObjectToDelete)
    ensures var v := Vet(cfg, f, o); var passes := f.auth == Allowed && VersionOk(f, o);
            && (v.Admitted? <==>
                  passes && (Replicated(cfg, f) ==> f.replicateAuth == Allowed) && !Retained(cfg, f, o))
            && (v.Abort? <==> f.auth == Fatal || (passes && Replicated(cfg, f) && f.replicateAuth == Fatal))
            && (v.Unreported? <==> passes && Replicated(cfg, f) && f.replicateAuth.Denied?)
            && (f.auth.Denied? ==>
                  v == Rejected(DeleteError(f.auth.e.code, f.auth.e.description, o.name, o.versionID)))
            && (f.auth == Allowed && !VersionOk(f, o) ==>
                  v == Rejected(
                    DeleteError("NoSuchVersion", "The specified version does not exist.", o.name, o.versionID)))
            && (passes && (Replicated(cfg, f) ==> f.replicateAuth == Allowed) && Retained(cfg, f, o) ==>
                  v == Rejected(
                    DeleteError(f.retention.value.code, f.retention.value.description, o.name, o.versionID)))
  {
  }

  /**
   An admitted entry is the requested one but for its replication and transition fields: exactly
   one replication field, chosen by the version, becomes pending when the deletion is replicated,
   and the transition status found is copied when there is a lifecycle configuration.
  */
  lemma {:induction false} AdmittedEntry(cfg: Config, f: Facts, o: ObjectToDelete)
    requires Vet(cfg, f, o).Admitted?
    ensures var pending := "PENDING";
            Vet(cfg, f, o).entry == ObjectToDelete(
              o.name, o.versionID,
              if Replicated(cfg, f) && o.versionID == "" then pending else o.markerReplication,
              if Replicated(cfg, f) && o.versionID != "" then pending else o.purgeStatus,
              o.markerVersionID,
              if cfg.hasLifecycle && f.transition.Some? then f.transition.value else o.purgeTransitioned)
  {
  }

  function VetAll(cfg: Config, facts: seq<Facts>, objects: seq<ObjectToDelete>): (v: seq<Vetting>)
    requires |facts| == |objects|
    ensures |v| == |objects|
  {
    seq(|objects|, i requires 0 <= i < |objects| => Vet(cfg, facts[i], objects[i]))
  }

  /** The error recorded while vetting, or the empty record. */
  function FirstError(v: Vetting): DeleteError { if v.Rejected? then v.error else NO_ERROR }

  /** `todo` maps every admitted entry among the first n to the index of its first occurrence. */
  ghost predicate FirstIndexes(v: seq<Vetting>, n: nat, todo: map<ObjectToDelete, nat>)
    requires n <= |v|
  {
    && (forall x :: x in todo ==>
          todo[x] < n && v[todo[x]] == Admitted(x) && forall j :: 0 <= j < todo[x] ==> v[j] != Admitted(x))
    && (forall j :: 0 <= j < n && v[j].Admitted? ==> v[j].entry in todo)
  }

  /** The first loop of the handler. */
  method Collect(cfg: Config, facts: seq<Facts>, objects: seq<ObjectToDelete>)
      returns (abort: bool, dErrs: array<DeleteError>, todo: map<ObjectToDelete, nat>)
    requires |facts| == |objects|
    ensures abort <==> Abort in VetAll(cfg, facts, objects)
    ensures fresh(dErrs) && dErrs.Length == |objects|
    ensures !abort ==>
              forall k :: 0 <= k < |objects| ==>
                dErrs[k] == match VetAll(cfg, facts, objects)[k]
                            case Rejected(error) => error
                            case _ => NO_ERROR
    ensures !abort ==> FirstIndexes(VetAll(cfg, facts, objects), |objects|, todo)
  {
    ghost var v := VetAll(cfg, facts, objects);
    dErrs := new DeleteError[|objects|](_ => NO_ERROR);
    todo := map[];
    var index := 0;
    while index < |objects|
      invariant index <= |objects|
      invariant forall k :: 0 <= k < index ==> v[k] != Abort && dErrs[k] == FirstError(v[k])
      invariant forall k :: index <= k < |objects| ==> dErrs[k] == NO_ERROR
      invariant FirstIndexes(v, index, todo)
    {
      var vetting := Vet(cfg, facts[index], objects[index]);
      assert v[index] == vetting;
      if vetting.Abort? {
        return true, dErrs, todo;
      }
      if vetting.Rejected? {
        dErrs[index] := vetting.error;
      } else if vetting.Admitted? && vetting.entry !in todo {
        todo := todo[vetting.entry := index];
      }
      index := index + 1;
    }
    abort := false;
  }

  // ---- The list given to the backend

  /** `list` holds every key of the map exactly once. */
  ghost predicate Enumerates(list: seq<ObjectToDelete>, todo: map<ObjectToDelete, nat>) {
    && (forall i :: 0 <= i < |list| ==> list[i] in todo)
    && (forall i, j :: 0 <= i < j < |list| ==> list[i] != list[j])
    && (forall x :: x in todo ==> x in list)
  }

  /** toNames: ranges over the map in any order. */
  method ToNames(todo: map<ObjectToDelete, nat>) returns (list: seq<ObjectToDelete>)
    ensures Enumerates(list, todo)
  {
    list := [];
    var rest := todo.Keys;
    while rest != {}
      invariant rest <= todo.Keys
      invariant forall i :: 0 <= i < |list| ==> list[i] in todo && list[i] !in rest
      invariant forall i, j :: 0 <= i < j < |list| ==> list[i] != list[j]
      invariant forall x :: x in todo && x !in rest ==> x in list
      decreases rest
    {
      var x :| x in rest;
      list := list + [x];
      rest := rest - {x};
    }
  }

  // ---- Placing the answers

  datatype Failure = NotFound | Failed(e: ApiError)

  /** The backend's answer to one list entry; `sent` is that entry of the shared list after the call. */
  datatype Answer = Answer(sent: ObjectToDelete, record: DeletedObject, failure: Option<Failure>)

  datatype Slots = Slots(deleted: seq<DeletedObject>, errors: seq<DeleteError>)

  /** The key under which the handler looks up where an answer belongs. */
  function LookupKey(d: DeletedObject): ObjectToDelete {
    ObjectToDelete(d.name, d.versionID, d.markerReplication, d.purgeStatus, "", d.purgeTransitioned)
  }

  /** The looked-up index; a missing key reads as zero. */
  function Slot(todo: map<ObjectToDelete, nat>, a: Answer): nat {
    var key := LookupKey(a.record);
    if key in todo then todo[key] else 0
  }

  predicate Succeeded(a: Answer) { a.failure == None || a.failure.value == NotFound }

  /** The record shown for a deleted object. */
  function Shown(cfg: Config, a: Answer): DeletedObject {
    if cfg.replicateDeletes
    then a.record.(markerReplication := a.sent.markerReplication, purgeStatus := a.sent.purgeStatus)
    else a.record
  }

  /** For an echoed and untouched list entry, the record is shown as the backend gave it. */
  lemma {:induction false} EchoedIsShown(cfg: Config, x: ObjectToDelete, a: Answer)
    requires LookupKey(a.record) == x && a.sent == x
    ensures Shown(cfg, a) == a.record
  {
  }

  function PlaceAt(cfg: Config, slots: Slots, at: nat, a: Answer): (r: Slots)
    requires at < |slots.deleted| == |slots.errors|
  {
    if Succeeded(a) then slots.(deleted := slots.deleted[at := Shown(cfg, a)])
    else slots.(errors := slots.errors[at := ErrorFor(a.failure.value.e, a.sent)])
  }

  /** All indexes that the map can give are inside the request. */
  predicate InRange(todo: map<ObjectToDelete, nat>, n: nat) {
    n > 0 && forall x :: x in todo ==> todo[x] < n
  }

  function PlaceAll(cfg: Config, todo: map<ObjectToDelete, nat>, slots: Slots, answers: seq<Answer>): (r: Slots)
    requires |slots.deleted| == |slots.errors| && InRange(todo, |slots.errors|)
    ensures |r.deleted| == |slots.deleted| && |r.errors| == |slots.errors|
    decreases |answers|
  {
    if answers == [] then slots
    else
      var k := |answers| - 1;
      PlaceAt(cfg, PlaceAll(cfg, todo, slots, answers[..k]), Slot(todo, answers[k]), answers[k])
  }

  /** The placement loop of the handler. */
  method PlaceResults(cfg: Config, todo: map<ObjectToDelete, nat>, answers: seq<Answer>, dErrs: array<DeleteError>)
      returns (deleted: array<DeletedObject>)
    requires InRange(todo, dErrs.Length)
    modifies dErrs
    ensures fresh(deleted) && deleted.Length == dErrs.Length
    ensures Slots(deleted[..], dErrs[..]) ==
            PlaceAll(cfg, todo, Slots(Empty(dErrs.Length), old(dErrs[..])), answers)
  {
    deleted := new DeletedObject[dErrs.Length](_ => NO_OBJECT);
    ghost var start := Slots(Empty(dErrs.Length), dErrs[..]);
    assert deleted[..] == start.deleted;
    var i := 0;
    while i < |answers|
      invariant i <= |answers|
      invariant Slots(deleted[..], dErrs[..]) == PlaceAll(cfg, todo, start, answers[..i])
    {
      var a := answers[i];
      var at := Slot(todo, a);
      if Succeeded(a) {
        deleted[at] := Shown(cfg, a);
      } else {
        dErrs[at] := ErrorFor(a.failure.value.e, a.sent);
      }
      assert answers[..i + 1][..i] == answers[..i];
      i := i + 1;
    }
    assert answers[..i] == answers;
  }

  /** The whole core: vetting, deduplication, the backend and placement. */
  method DeleteMultiple(cfg: Config, facts: seq<Facts>, objects: seq<ObjectToDelete>, serve: ObjectToDelete -> Answer)
      returns (abort: bool, result: Slots)
    requires |facts| == |objects| > 0
    ensures abort <==> Abort in VetAll(cfg, facts, objects)
    ensures !abort && EchoesAdmitted(VetAll(cfg, facts, objects), serve) ==>
              result == Expected(cfg, VetAll(cfg, facts, objects), serve)
  {
    ghost var v := VetAll(cfg, facts, objects);
    var dErrs, todo;
    abort, dErrs, todo := Collect(cfg, facts, objects);
    if abort {
      return true, Slots([], []);
    }
    var list := ToNames(todo);
    var answers := seq(|list|, i requires 0 <= i < |list| => serve(list[i]));
    ghost var errors := dErrs[..];
    var deleted := PlaceResults(cfg, todo, answers, dErrs);
    result := Slots(deleted[..], dErrs[..]);
    if EchoesAdmitted(v, serve) {
      EchoedAnswersAsExpected(cfg, v, todo, list, serve, answers, errors);
    }
  }

  /** The backend's records carry the identifying fields of the admitted entries. */
  ghost predicate EchoesAdmitted(v: seq<Vetting>, serve: ObjectToDelete -> Answer) {
    forall i :: 0 <= i < |v| && v[i].Admitted? ==> LookupKey(serve(v[i].entry).record) == v[i].entry
  }

  // ---- Every outcome at its own index

  /** Every answer is placed at the index of the entry it answers. */
  predicate AllHome(todo: map<ObjectToDelete, nat>, list: seq<ObjectToDelete>, answers: seq<Answer>)
    requires |list| == |answers| && forall i :: 0 <= i < |list| ==> list[i] in todo
  {
    forall i :: 0 <= i < |list| ==> Slot(todo, answers[i]) == todo[list[i]]
  }

  /**
   Answers come home exactly if each one echoes the identifying fields of its entry, or is
   unknown to the map and answers the entry at index zero.
  */
  lemma {:induction false} HomeExactlyIfEchoed(
      v: seq<Vetting>, todo: map<ObjectToDelete, nat>, list: seq<ObjectToDelete>, answers: seq<Answer>)
    requires FirstIndexes(v, |v|, todo) && Enumerates(list, todo) && |answers| == |list|
    ensures AllHome(todo, list, answers) <==>
            forall i :: 0 <= i < |list| ==>
              var key := LookupKey(answers[i].record);
              key == list[i] || (key !in todo && todo[list[i]] == 0)
  {
    forall i | 0 <= i < |list|
      ensures Slot(todo, answers[i]) == todo[list[i]] <==>
              var key := LookupKey(answers[i].record); key == list[i] || (key !in todo && todo[list[i]] == 0)
    {
      var key := LookupKey(answers[i].record);
      if key in todo && todo[key] == todo[list[i]] {
        assert Admitted(key) == v[todo[key]] == Admitted(list[i]);
      }
    }
  }

  /** The slot pair holds exactly the outcome of `a` over the vetting error `before`. */
  predicate Holds(cfg: Config, a: Answer, before: DeleteError, d: DeletedObject, e: DeleteError) {
    if Succeeded(a) then d == Shown(cfg, a) && e == before
    else d == NO_OBJECT && e == ErrorFor(a.failure.value.e, a.sent)
  }

  ghost predicate IsHome(todo: map<ObjectToDelete, nat>, list: seq<ObjectToDelete>, j: nat) {
    exists i :: 0 <= i < |list| && list[i] in todo && todo[list[i]] == j
  }

  /** What is in the slots after the answers to `list` have been placed. */
  ghost predicate Placed(
      cfg: Config, todo: map<ObjectToDelete, nat>, list: seq<ObjectToDelete>, answers: seq<Answer>,
      before: seq<DeleteError>, after: Slots)
    requires |list| == |answers| && InRange(todo, |before|) && |before| == |after.deleted| == |after.errors|
    requires forall i :: 0 <= i < |list| ==> list[i] in todo
  {
    && (forall i :: 0 <= i < |list| ==>
          var at := todo[list[i]]; Holds(cfg, answers[i], before[at], after.deleted[at], after.errors[at]))
    && (forall j :: 0 <= j < |before| && !IsHome(todo, list, j) ==>
          after.deleted[j] == NO_OBJECT && after.errors[j] == before[j])
  }

  /** Different entries have different first indexes. */
  ghost predicate Injective(todo: map<ObjectToDelete, nat>) {
    forall x, y :: x in todo && y in todo && todo[x] == todo[y] ==> x == y
  }

  ghost predicate Distinct(list: seq<ObjectToDelete>) {
    forall i, j :: 0 <= i < j < |list| ==> list[i] != list[j]
  }

  function Empty(n: nat): seq<DeletedObject> { seq(n, _ => NO_OBJECT) }

  lemma {:induction false} PlaceLast(
      cfg: Config, todo: map<ObjectToDelete, nat>, list: seq<ObjectToDelete>, answers: seq<Answer>,
      before: seq<DeleteError>, mid: Slots, after: Slots, k: nat)
    requires Injective(todo) && InRange(todo, |before|) && |before| == |mid.deleted| == |mid.errors|
    requires Distinct(list) && |list| == |answers| == k + 1
    requires forall i :: 0 <= i < |list| ==> list[i] in todo
    requires Placed(cfg, todo, list[..k], answers[..k], before, mid)
    requires after == PlaceAt(cfg, mid, todo[list[k]], answers[k])
    ensures |before| == |after.deleted| == |after.errors| && Placed(cfg, todo, list, answers, before, after)
  {
    var front, at := list[..k], todo[list[k]];
    assert !IsHome(todo, front, at);
    forall i | 0 <= i < k ensures list[i] == front[i] && todo[list[i]] != at && IsHome(todo, list, todo[list[i]]) {
    }
    assert IsHome(todo, list, at);
    forall j | IsHome(todo, front, j) ensures IsHome(todo, list, j) {
      var i :| 0 <= i < |front| && front[i] in todo && todo[front[i]] == j;
      assert list[i] == front[i];
    }
  }

  /**
   When all answers come home, each entry's outcome is at its own index, in exactly one of the two
   arrays, and every other index keeps its vetting error and no deleted object.
  */
  lemma {:induction false} OutcomesComeHome(
      cfg: Config, todo: map<ObjectToDelete, nat>, list: seq<ObjectToDelete>, answers: seq<Answer>,
      before: seq<DeleteError>)
    requires Injective(todo) && InRange(todo, |before|) && Distinct(list) && |list| == |answers|
    requires forall i :: 0 <= i < |list| ==> list[i] in todo
    requires AllHome(todo, list, answers)
    ensures Placed(cfg, todo, list, answers, before, PlaceAll(cfg, todo, Slots(Empty(|before|), before), answers))
    decreases |list|
  {
    var start := Slots(Empty(|before|), before);
    if list != [] {
      var k := |list| - 1;
      OutcomesComeHome(cfg, todo, list[..k], answers[..k], before);
      var mid := PlaceAll(cfg, todo, start, answers[..k]);
      PlaceLast(cfg, todo, list, answers, before, mid, PlaceAt(cfg, mid, todo[list[k]], answers[k]), k);
    }
  }

  // ---- The result as a function of the request

  ghost predicate FirstAt(v: seq<Vetting>, j: nat)
    requires j < |v|
  {
    v[j].Admitted? && forall i :: 0 <= i < j ==> v[i] != v[j]
  }

  ghost function ExpectedDeleted(cfg: Config, v: seq<Vetting>, serve: ObjectToDelete -> Answer, j: nat): DeletedObject
    requires j < |v|
  {
    if !FirstAt(v, j) then NO_OBJECT
    else
      match serve(v[j].entry)
      case Answer(_, _, Some(Failed(_))) => NO_OBJECT
      case Answer(sent, record, _) =>
        if !cfg.replicateDeletes then record
        else record.(markerReplication := sent.markerReplication, purgeStatus := sent.purgeStatus)
  }

  ghost function ExpectedError(v: seq<Vetting>, serve: ObjectToDelete -> Answer, j: nat): DeleteError
    requires j < |v|
  {
    if !FirstAt(v, j) then FirstError(v[j])
    else
      match serve(v[j].entry)
      case Answer(sent, _, Some(Failed(e))) => DeleteError(e.code, e.description, sent.name, sent.versionID)
      case _ => FirstError(v[j])
  }

  /** The result written index by index: no map, no list and no order. */
  ghost function Expected(cfg: Config, v: seq<Vetting>, serve: ObjectToDelete -> Answer): Slots {
    Slots(
      seq(|v|, j requires 0 <= j < |v| => ExpectedDeleted(cfg, v, serve, j)),
      seq(|v|, j requires 0 <= j < |v| => ExpectedError(v, serve, j)))
  }

  lemma {:induction false} HomesAreFirst(
      v: seq<Vetting>, todo: map<ObjectToDelete, nat>, list: seq<ObjectToDelete>, j: nat)
    requires FirstIndexes(v, |v|, todo) && Enumerates(list, todo) && j < |v|
    ensures IsHome(todo, list, j) <==> FirstAt(v, j)
    ensures FirstAt(v, j) ==> v[j].entry in todo && todo[v[j].entry] == j
  {
    if FirstAt(v, j) {
      var x := v[j].entry;
      assert v[todo[x]] == v[j];
      var i :| 0 <= i < |list| && list[i] == x;
    }
  }

  /** Index by index, slots filled as `Placed` says are the expected ones. */
  lemma {:induction false} PlacedIsExpected(
      cfg: Config, v: seq<Vetting>, todo: map<ObjectToDelete, nat>, list: seq<ObjectToDelete>,
      serve: ObjectToDelete -> Answer, answers: seq<Answer>, errors: seq<DeleteError>, after: Slots, j: nat)
    requires j < |v| == |errors| == |after.deleted| == |after.errors| && |answers| == |list|
    requires FirstIndexes(v, |v|, todo) && Enumerates(list, todo)
    requires forall i :: 0 <= i < |list| ==> answers[i] == serve(list[i])
    requires errors[j] == FirstError(v[j])
    requires Placed(cfg, todo, list, answers, errors, after)
    ensures after.deleted[j] == ExpectedDeleted(cfg, v, serve, j)
    ensures after.errors[j] == ExpectedError(v, serve, j)
  {
    HomesAreFirst(v, todo, list, j);
    if FirstAt(v, j) {
      var i :| 0 <= i < |list| && list[i] in todo && todo[list[i]] == j;
      assert v[j] == Admitted(list[i]) && answers[i] == serve(list[i]);
      assert Holds(cfg, answers[i], errors[j], after.deleted[j], after.errors[j]);
    }
  }

  lemma {:induction false} EchoedComesHome(
      v: seq<Vetting>, todo: map<ObjectToDelete, nat>, list: seq<ObjectToDelete>, serve: ObjectToDelete -> Answer,
      answers: seq<Answer>)
    requires FirstIndexes(v, |v|, todo) && Enumerates(list, todo) && EchoesAdmitted(v, serve)
    requires |answers| == |list| && forall i :: 0 <= i < |list| ==> answers[i] == serve(list[i])
    ensures Injective(todo) && AllHome(todo, list, answers)
  {
    forall i | 0 <= i < |list| ensures LookupKey(answers[i].record) == list[i] {
      assert v[todo[list[i]]] == Admitted(list[i]);
    }
    HomeExactlyIfEchoed(v, todo, list, answers);
  }

  /** With a backend that echoes, the handler's result is the expected one for every map order. */
  lemma {:induction false} EchoedAnswersAsExpected(
      cfg: Config, v: seq<Vetting>, todo: map<ObjectToDelete, nat>, list: seq<ObjectToDelete>,
      serve: ObjectToDelete -> Answer, answers: seq<Answer>, errors: seq<DeleteError>)
    requires |v| > 0 && FirstIndexes(v, |v|, todo) && Enumerates(list, todo)
    requires EchoesAdmitted(v, serve)
    requires |answers| == |list| && forall i :: 0 <= i < |list| ==> answers[i] == serve(list[i])
    requires |errors| == |v| && forall j :: 0 <= j < |v| ==> errors[j] == FirstError(v[j])
    ensures PlaceAll(cfg, todo, Slots(Empty(|v|), errors), answers) == Expected(cfg, v, serve)
  {
    EchoedComesHome(v, todo, list, serve, answers);
    OutcomesComeHome(cfg, todo, list, answers, errors);
    var after := PlaceAll(cfg, todo, Slots(Empty(|v|), errors), answers);
    forall j | 0 <= j < |v|
      ensures after.deleted[j] == ExpectedDeleted(cfg, v, serve, j) && after.errors[j] == ExpectedError(v, serve, j)
    {
      PlacedIsExpected(cfg, v, todo, list, serve, answers, errors, after, j);
    }
    ExpectedIndexwise(cfg, v, serve, after);
  }

  lemma {:induction false} ExpectedIndexwise(
      cfg: Config, v: seq<Vetting>, serve: ObjectToDelete -> Answer, after: Slots)
    requires |v| == |after.deleted| == |after.errors|
    requires forall j :: 0 <= j < |v| ==>
               after.deleted[j] == ExpectedDeleted(cfg, v, serve, j) && after.errors[j] == ExpectedError(v, serve, j)
    ensures after == Expected(cfg, v, serve)
  {
    var want := Expected(cfg, v, serve);
    assert after.deleted == want.deleted && after.errors == want.errors;
  }

  /** The backend leaves the list it is given as it is. */
  ghost predicate KeepsList(v: seq<Vetting>, serve: ObjectToDelete -> Answer) {
    forall i :: 0 <= i < |v| && v[i].Admitted? ==> serve(v[i].entry).sent == v[i].entry
  }

  /**
   What the result shows at an index is about the request entry at that index: with a backend that
   echoes and keeps its list, a deleted object and an error carry its name and version.
  */
  lemma {:induction false} ResultsNameTheirEntry(
      cfg: Config, facts: seq<Facts>, objects: seq<ObjectToDelete>, serve: ObjectToDelete -> Answer, j: nat)
    requires |facts| == |objects| && j < |objects|
    requires EchoesAdmitted(VetAll(cfg, facts, objects), serve) && KeepsList(VetAll(cfg, facts, objects), serve)
    ensures var r := Expected(cfg, VetAll(cfg, facts, objects), serve);
            && (r.errors[j] != NO_ERROR ==>
                  r.errors[j].key == objects[j].name && r.errors[j].versionID == objects[j].versionID)
            && (r.deleted[j] != NO_OBJECT ==>
                  r.deleted[j].name == objects[j].name && r.deleted[j].versionID == objects[j].versionID)
  {
    var v := VetAll(cfg, facts, objects);
    assert v[j] == Vet(cfg, facts[j], objects[j]);
    VettingDecides(cfg, facts[j], objects[j]);
    if v[j].Admitted? {
      AdmittedEntry(cfg, facts[j], objects[j]);
      EchoedIsShown(cfg, v[j].entry, serve(v[j].entry));
    }
  }

  /** Some backend echoes the admitted entries. */
  ghost predicate Echoable(v: seq<Vetting>) {
    exists serve: ObjectToDelete -> Answer :: EchoesAdmitted(v, serve)
  }

  function EchoOf(x: ObjectToDelete): Answer {
    Answer(x, DeletedObject(false, "", x.name, x.versionID, x.markerReplication, 0, x.purgeStatus, x.purgeTransitioned),
           None)
  }

  /**
   There is an echoing backend for a request if and only if no admitted entry of it names a delete
   marker version: the lookup key leaves that field empty.
  */
  lemma {:induction false} EchoableExactly(cfg: Config, facts: seq<Facts>, objects: seq<ObjectToDelete>)
    requires |facts| == |objects|
    ensures Echoable(VetAll(cfg, facts, objects)) <==>
            forall j :: 0 <= j < |objects| && Vet(cfg, facts[j], objects[j]).Admitted? ==>
              objects[j].markerVersionID == ""
  {
    var v := VetAll(cfg, facts, objects);
    forall j | 0 <= j < |v| && v[j].Admitted? ensures v[j].entry.markerVersionID == objects[j].markerVersionID {
      AdmittedEntry(cfg, facts[j], objects[j]);
    }
    if forall j :: 0 <= j < |v| && v[j].Admitted? ==> v[j].entry.markerVersionID == "" {
      assert EchoesAdmitted(v, EchoOf);
    }
  }

  /** A failure whose record is unknown to the map replaces whatever error index zero had. */
  lemma {:induction false} UnknownFailureOverwritesIndexZero(
      cfg: Config, todo: map<ObjectToDelete, nat>, slots: Slots, answers: seq<Answer>, last: Answer)
    requires |slots.deleted| == |slots.errors| && InRange(todo, |slots.errors|)
    requires !Succeeded(last) && LookupKey(last.record) !in todo
    ensures PlaceAll(cfg, todo, slots, answers + [last]).errors[0] == ErrorFor(last.failure.value.e, last.sent)
    ensures PlaceAll(cfg, todo, slots, answers + [last]).errors[1..] == PlaceAll(cfg, todo, slots, answers).errors[1..]
  {
    assert (answers + [last])[..|answers|] == answers;
  }

  // ---- The filesystem backend

  /** FSObjects.DeleteObjects on one entry, given the error of the deletion itself. */
  function FsServe(o: ObjectToDelete, failure: Option<Failure>): Answer {
    if o.versionID != "" then Answer(o, NO_OBJECT, Some(NotFound))
    else if failure == None || failure.value == NotFound then Answer(o, NO_OBJECT.(name := o.name), None)
    else Answer(o, NO_OBJECT, failure)
  }

  /** The entry with the name of `o` and nothing else. */
  function Bare(o: ObjectToDelete): ObjectToDelete { ObjectToDelete(o.name, "", "", "", "", "") }

  predicate Plain(o: ObjectToDelete) { o == Bare(o) }

  const BLANK := ObjectToDelete("", "", "", "", "", "")

  /** The backend deleted the object, or found it gone, and names it. */
  predicate Named(o: ObjectToDelete, failure: Option<Failure>) {
    o.versionID == "" && (failure == None || failure.value == NotFound)
  }

  /**
   An answer of the filesystem backend comes home if its entry is plain and was deleted; or its entry
   is the first of the request and the name in the answer, bare or empty, is not that of another.
  */
  predicate FsHome(todo: map<ObjectToDelete, nat>, x: ObjectToDelete, failure: Option<Failure>)
    requires x in todo
  {
    || (Plain(x) && (Named(x, failure) || x == BLANK))
    || (todo[x] == 0 && (if Named(x, failure) then Bare(x) else BLANK) !in todo)
  }

  /**
   The filesystem backend names only what it deleted by bare name. For every request, versioned
   entries included, all its answers come home exactly under the condition above.
  */
  lemma {:induction false} FsComesHomeExactly(
      v: seq<Vetting>, todo: map<ObjectToDelete, nat>, list: seq<ObjectToDelete>,
      failures: seq<Option<Failure>>, answers: seq<Answer>)
    requires FirstIndexes(v, |v|, todo) && Enumerates(list, todo) && |failures| == |list| == |answers|
    requires forall i :: 0 <= i < |list| ==> answers[i] == FsServe(list[i], failures[i])
    ensures AllHome(todo, list, answers) <==> forall i :: 0 <= i < |list| ==> FsHome(todo, list[i], failures[i])
  {
    HomeExactlyIfEchoed(v, todo, list, answers);
    forall i | 0 <= i < |list|
      ensures (var key := LookupKey(answers[i].record); key == list[i] || (key !in todo && todo[list[i]] == 0)) <==>
              FsHome(todo, list[i], failures[i])
    {
      FsKey(list[i], failures[i]);
    }
  }

  lemma {:induction false} FsKey(o: ObjectToDelete, failure: Option<Failure>)
    ensures LookupKey(FsServe(o, failure).record) == if Named(o, failure) then Bare(o) else BLANK
  {
  }

  /** A versioned entry wipes the record of a successful deletion: nothing is reported of either. */
  lemma {:induction false} FsWipesARecord(cfg: Config, a: ObjectToDelete, b: ObjectToDelete)
    requires Plain(a) && a.name != "" && b.versionID != ""
    ensures var todo := map[a := 0, b := 1]; var start := Slots(Empty(2), [NO_ERROR, NO_ERROR]);
            var end := PlaceAll(cfg, todo, start, [FsServe(a, None), FsServe(b, None)]);
            && end.errors == [NO_ERROR, NO_ERROR]
            && end.deleted[0].name == "" && end.deleted[1] == NO_OBJECT
  {
    var todo := map[a := 0, b := 1];
    var start := Slots(Empty(2), [NO_ERROR, NO_ERROR]);
    var x, y := FsServe(a, None), FsServe(b, None);
    FsKey(a, None);
    FsKey(b, None);
    assert a != b && Slot(todo, x) == 0 && Slot(todo, y) == 0;
    assert [x, y][..1] == [x] && [x][..0] == [];
    assert PlaceAll(cfg, todo, start, [x]) == PlaceAt(cfg, PlaceAll(cfg, todo, start, []), 0, x);
    assert PlaceAll(cfg, todo, start, [x, y]) == PlaceAt(cfg, PlaceAll(cfg, todo, start, [x]), 0, y);
  }

  /** Two failing deletions on the filesystem backend: one of the two errors disappears. */
  lemma {:induction false} FsLosesAnError(cfg: Config, a: ObjectToDelete, b: ObjectToDelete, e: ApiError)
    requires Plain(a) && Plain(b) && a.name != "" && b.name != "" && a != b
    ensures var todo := map[a := 0, b := 1]; var start := Slots(Empty(2), [NO_ERROR, NO_ERROR]);
            PlaceAll(cfg, todo, start, [FsServe(a, Some(Failed(e))), FsServe(b, Some(Failed(e)))])
            == Slots(Empty(2), [ErrorFor(e, b), NO_ERROR])
  {
    var todo := map[a := 0, b := 1];
    var start := Slots(Empty(2), [NO_ERROR, NO_ERROR]);
    var x, y := FsServe(a, Some(Failed(e))), FsServe(b, Some(Failed(e)));
    assert LookupKey(NO_OBJECT).name == "";
    assert Slot(todo, x) == 0 && Slot(todo, y) == 0;
    assert [x, y][..1] == [x] && [x][..0] == [];
    assert PlaceAll(cfg, todo, start, [x]) == PlaceAt(cfg, PlaceAll(cfg, todo, start, []), 0, x);
    assert [NO_ERROR, NO_ERROR][0 := ErrorFor(e, a)][0 := ErrorFor(e, b)] == [ErrorFor(e, b), NO_ERROR];
  }
}
