/**
 The healing tracker object as a heal works with it: its counters are assigned in place, and its
 two bucket lists are slices over backing arrays.
*/
module HealingTrackers {
  import opened Common
  import opened RangeDelete
  import opened TrackerRuns

  class HealingTracker {
    var id: Bytes
    var bucket: Bytes
    var objectName: Bytes
    var counters: Counters
    var resumeCounters: Counters
    var queued: array<Bytes>
    var queuedLen: nat
    var healed: array<Bytes>
    var healedLen: nat

    ghost predicate Valid()
      reads this
    {
      queued != healed && queuedLen <= queued.Length && healedLen <= healed.Length
    }

    ghost function Now(): Work
      requires Valid()
      reads this, queued, healed
    {
      Work(id, bucket, objectName, counters, resumeCounters, queued[..queuedLen], healed[..healedLen])
    }

    /** newHealingTracker, apart from the location of the disk. */
    constructor (diskId: Bytes)
      ensures Valid() && fresh(queued) && fresh(healed)
      ensures Now() == NewWork(diskId)
    {
      id, bucket, objectName := diskId, [], [];
      counters, resumeCounters := NONE, NONE;
      queued, queuedLen := new Bytes[0], 0;
      healed, healedLen := new Bytes[0], 0;
    }

    method IsHealed(bucket: Bytes) returns (found: bool)
      requires Valid()
      ensures found <==> bucket in Now().healed
    {
      var i := 0;
      while i < healedLen
        invariant i <= healedLen
        invariant forall k :: 0 <= k < i ==> healed[k] != bucket
      {
        if healed[i] == bucket {
          return true;
        }
        i := i + 1;
      }
      return false;
    }

    method Resume()
      requires Valid()
      modifies this`counters
      ensures Now() == Resumed(old(Now())) && counters == resumeCounters
    {
      counters := resumeCounters;
    }

    /** How healErasureSet enters a bucket. */
    method Enter(name: Bytes)
      requires Valid()
      modifies this`counters, this`bucket, this`objectName
      ensures Now() == Entered(old(Now()), name)
      ensures bucket == name && objectName == []
      ensures counters == if old(bucket) != [] && old(bucket) != name then resumeCounters else old(counters)
    {
      if bucket != [] {
        if bucket != name {
          Resume();
        }
      }
      objectName := [];
      bucket := name;
    }

    /** The end of healErasureSet. */
    method Leave()
      requires Valid()
      modifies this`bucket, this`objectName
      ensures Now() == Left(old(Now())) && bucket == [] && objectName == []
    {
      objectName := [];
      bucket := [];
    }

    /** append(h.HealedBuckets, bucket): in place while there is capacity, else in a new array. */
    method AppendHealed(bucket: Bytes)
      requires Valid()
      modifies this`healed, this`healedLen, healed
      ensures Valid() && (healed == old(healed) || fresh(healed))
      ensures Now() == old(Now()).(healed := old(Now()).healed + [bucket])
    {
      ghost var before := healed[..healedLen];
      if healedLen == healed.Length {
        var bigger := new Bytes[2 * healedLen + 1];
        forall i | 0 <= i < healedLen {
          bigger[i] := healed[i];
        }
        healed := bigger;
      }
      assert healed[..healedLen] == before;
      healed[healedLen] := bucket;
      healedLen := healedLen + 1;
      assert healed[..healedLen] == before + [bucket];
    }

    /**
     bucketDone. It panics exactly when the bucket is queued last and also before; otherwise the
     counters become the resume numbers, the bucket is healed, and the queue is swept, which for
     a queue of distinct names removes the bucket and nothing else.
    */
    method BucketDone(bucket: Bytes) returns (panicked: bool)
      requires Valid()
      modifies this, queued, healed
      ensures Valid() && queued == old(queued)
      ensures panicked <==> DonePanics(old(Now()), bucket)
      ensures !panicked ==> Now() == Done(old(Now()), bucket)
      ensures !panicked ==> resumeCounters == counters == old(counters) && this.bucket == old(this.bucket)
      ensures !panicked ==> Now().healed == old(Now()).healed + [bucket]
      ensures Distinct(old(Now()).queued) ==>
                !panicked && Now().queued == Without(old(Now()).queued, b => b == bucket)
    {
      ghost var w := Now();
      resumeCounters := counters;
      AppendHealed(bucket);
      assert queued[..queuedLen] == w.queued;
      var hit := (b: Bytes) => b == bucket;
      var left;
      panicked, left := DeleteWhileRanging(queued, queuedLen, hit, false);
      if !panicked {
        queuedLen := left;
      }
      if Distinct(w.queued) {
        DistinctIsSafe(w.queued, bucket);
        SweepRemovesAllUnlessAdjacent(w.queued, hit);
      }
    }

    /** setQueuedBuckets: the listed names that are not healed yet, in their order. */
    method SetQueuedBuckets(names: seq<Bytes>)
      requires Valid()
      modifies this`queued, this`queuedLen
      ensures Valid() && fresh(queued)
      ensures Now() == Requeued(old(Now()), names)
    {
      ghost var done := healed[..healedLen];
      var s := set i | 0 <= i < healedLen :: healed[i];
      assert forall b :: b in s <==> b in done;
      SameHits(names, b => b in s, b => b in done);
      var list := new Bytes[|names|];
      var n := UnhealedInto(list, names, s);
      queued, queuedLen := list, n;
      assert healed[..healedLen] == done;
    }
  }

  lemma {:induction false} SameHits(q: seq<Bytes>, f: Bytes -> bool, g: Bytes -> bool)
    requires forall b :: b in q ==> f(b) == g(b)
    ensures Without(q, f) == Without(q, g)
  {
    if q != [] {
      SameHits(q[1..], f, g);
    }
  }

  lemma {:induction false} WithoutFrom(names: seq<Bytes>, i: nat, hit: Bytes -> bool)
    requires i < |names|
    ensures Without(names[i..], hit) == (if hit(names[i]) then [] else [names[i]]) + Without(names[i + 1..], hit)
  {
    assert names[i..][1..] == names[i + 1..] && names[i..][0] == names[i];
  }

  /** Copies the names outside `s` to the front of `a`. */
  method UnhealedInto(a: array<Bytes>, names: seq<Bytes>, s: set<Bytes>) returns (n: nat)
    requires a.Length == |names|
    modifies a
    ensures n <= a.Length && a[..n] == Without(names, b => b in s)
  {
    ghost var hit := (b: Bytes) => b in s;
    ghost var out: seq<Bytes> := [];
    n := 0;
    assert names[0..] == names;
    var i := 0;
    while i < |names|
      invariant n <= i <= |names| && a[..n] == out
      invariant out + Without(names[i..], hit) == Without(names, hit)
    {
      WithoutFrom(names, i, hit);
      if names[i] !in s {
        a[n] := names[i];
        n := n + 1;
        Associate(out, [names[i]], Without(names[i + 1..], hit));
        out := out + [names[i]];
      }
      i := i + 1;
    }
    assert out + [] == out;
  }
}
