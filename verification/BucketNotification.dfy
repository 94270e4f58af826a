/**
 Removal of stale queue entries when a notification configuration is read: entries whose ARN has
 no target any more are deleted from the queue list while the loop ranges over it.
*/
module BucketNotification {
  import opened RangeDelete

  datatype Arn = Arn(id: string, name: string, region: string)

  datatype Queue = Queue(arn: Arn, id: string, events: seq<string>)

  function IsStale(missing: Arn): Queue -> bool { (q: Queue) => q.arn == missing }

  /**
   The loop never leaves the list, for any list. Entries with other ARNs all stay, in order; the
   stale ones are all gone if and only if no two of them were neighbours.
  */
  method RemoveStale(list: array<Queue>, missing: Arn) returns (n: nat)
    modifies list
    ensures n <= list.Length && list[..n] == Sweep(old(list[..]), IsStale(missing))
    ensures Without(list[..n], IsStale(missing)) == Without(old(list[..]), IsStale(missing))
    ensures list[..n] == Without(old(list[..]), IsStale(missing)) <==> !AdjacentHits(old(list[..]), IsStale(missing))
    ensures forall q: Queue :: q.arn != missing ==> (q in list[..n] <==> q in old(list[..]))
    ensures (forall q :: q in list[..n] ==> q.arn != missing) <==>
            forall i, j :: 0 <= i < j < list.Length && old(list[i]).arn == missing && old(list[j]).arn == missing ==>
              j > i + 1
  {
    ghost var was := list[..];
    assert list[..list.Length] == was;
    SweepDropsOnlyHits(was, IsStale(missing));
    SweepRemovesAllUnlessAdjacent(was, IsStale(missing));
    var panicked;
    panicked, n := DeleteWhileRanging(list, list.Length, IsStale(missing), true);
    forall q: Queue ensures q.arn != missing ==> (q in list[..n] <==> q in was) {
      WithoutMembers(was, IsStale(missing), q);
      WithoutMembers(list[..n], IsStale(missing), q);
    }
    WithoutIsSame(list[..n], IsStale(missing));
  }

  /** Two neighbouring entries with the stale ARN: the second one survives. */
  lemma {:induction false} NeighbourSurvives(missing: Arn, a: Queue, b: Queue)
    requires a.arn == missing && b.arn == missing
    ensures Sweep([a, b], IsStale(missing)) == [b]
  {
    assert [a, b][2..] == [];
  }
}
