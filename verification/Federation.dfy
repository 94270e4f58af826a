/**
 Reconciliation of the federation DNS with the local buckets (`initFederatorBackend`): local
 buckets are classified against a listing of the DNS, missing or outdated entries are put
 concurrently, and entries of this server for buckets it no longer has are deleted.
*/
module Federation {
  import opened Common

  type Host = string

  /** The DNS entries: the hosts that serve each bucket. */
  type Dns = map<string, set<Host>>

  /** The listing: failed with an error that is not ignored, or perhaps nil, with or without a missing domain. */
  datatype Listing = Failed | Listed(entries: Option<Dns>, domainMissing: bool)

  datatype Class = Unchanged | ToUpdate | Conflict

  predicate Ours(ips: set<Host>, hosts: set<Host>) { ips * hosts != {} }

  lemma {:induction false} NoDifference(a: set<Host>, b: set<Host>)
    ensures a - b == {} <==> a <= b
  {
    forall x | x in a && a - b == {} ensures x in b {
      assert x !in a - b;
    }
  }

  function Classify(ips: set<Host>, dns: Dns, domainMissing: bool, b: string): Class {
    if b !in dns then ToUpdate
    else if !Ours(ips, dns[b]) then Conflict
    else if ips - dns[b] == {} && !domainMissing then Unchanged
    else ToUpdate
  }

  /** The local buckets to put, and the entries to delete if all puts succeed. */
  datatype Plan = Plan(puts: set<string>, deletes: set<string>)

  function PlanFor(ips: set<Host>, buckets: seq<string>, listing: Listing): Plan {
    if buckets == [] || listing.Failed? || listing.entries == None then Plan({}, {})
    else
      var dns := listing.entries.value;
      Plan(
        set b | b in buckets && Classify(ips, dns, listing.domainMissing, b) == ToUpdate,
        set b | b in dns && b !in buckets && Ours(ips, dns[b]))
  }

  /** The classification loop: the three sets partition the local buckets. */
  method ClassifyBuckets(ips: set<Host>, buckets: seq<string>, dns: Dns, domainMissing: bool)
      returns (bucketsSet: set<string>, toUpdate: set<string>, inConflict: set<string>)
    ensures forall b :: b in bucketsSet <==> b in buckets
    ensures forall b :: b in toUpdate <==>
              b in buckets && (b in dns ==> ips * dns[b] != {} && (domainMissing || !(ips <= dns[b])))
    ensures forall b :: b in inConflict <==> b in buckets && b in dns && ips * dns[b] == {}
    ensures toUpdate !! inConflict
    ensures forall b :: b in toUpdate <==> b in buckets && Classify(ips, dns, domainMissing, b) == ToUpdate
  {
    bucketsSet, toUpdate, inConflict := {}, {}, {};
    var i := 0;
    while i < |buckets|
      invariant i <= |buckets|
      invariant forall b :: b in bucketsSet <==> b in buckets[..i]
      invariant forall b :: b in toUpdate <==> b in buckets[..i] && Classify(ips, dns, domainMissing, b) == ToUpdate
      invariant forall b :: b in inConflict <==> b in buckets[..i] && Classify(ips, dns, domainMissing, b) == Conflict
    {
      var b := buckets[i];
      assert buckets[..i + 1] == buckets[..i] + [b];
      bucketsSet := bucketsSet + {b};
      i := i + 1;
      if b !in dns {
        toUpdate := toUpdate + {b};
        continue;
      }
      if ips * dns[b] != {} {
        if ips - dns[b] == {} && !domainMissing {
          continue;
        }
        toUpdate := toUpdate + {b};
        continue;
      }
      inConflict := inConflict + {b};
    }
    assert buckets[..i] == buckets;
    forall b ensures b in toUpdate <==>
                b in buckets && (b in dns ==> Ours(ips, dns[b]) && (domainMissing || !(ips <= dns[b])))
    {
      if b in dns {
        NoDifference(ips, dns[b]);
      }
    }
  }

  /** The loop over the listing that picks the entries to delete. */
  method StaleEntries(ips: set<Host>, bucketsSet: set<string>, dns: Dns) returns (stale: set<string>)
    ensures forall b :: b in stale <==> b in dns && b !in bucketsSet && ips * dns[b] != {}
  {
    stale := {};
    var rest := dns.Keys;
    while rest != {}
      invariant rest <= dns.Keys
      invariant forall b :: b in stale <==> b in dns && b !in rest && b !in bucketsSet && Ours(ips, dns[b])
      decreases rest
    {
      var b :| b in rest;
      rest := rest - {b};
      if b in bucketsSet {
        continue;
      }
      if ips * dns[b] == {} {
        continue;
      }
      stale := stale + {b};
    }
  }

  /** What initFederatorBackend sets out to do. */
  method MakePlan(ips: set<Host>, buckets: seq<string>, listing: Listing) returns (plan: Plan)
    ensures plan == PlanFor(ips, buckets, listing)
  {
    if |buckets| == 0 || listing.Failed? {
      return Plan({}, {});
    }
    if listing.entries == None {
      return Plan({}, {});
    }
    var dns := listing.entries.value;
    var bucketsSet, toUpdate, _ := ClassifyBuckets(ips, buckets, dns, listing.domainMissing);
    var stale := StaleEntries(ips, bucketsSet, dns);
    plan := Plan(toUpdate, stale);
    var want := PlanFor(ips, buckets, listing);
    assert plan.puts == want.puts && plan.deletes == want.deletes;
  }

  /**
   The plan writes only entries that were absent or ours in the listing, deletes only ours, and
   never deletes a local bucket.
  */
  lemma {:induction false} PlanLeavesOthersAlone(ips: set<Host>, buckets: seq<string>, listing: Listing, b: string)
    ensures var plan := PlanFor(ips, buckets, listing);
            && (b in plan.puts ==> b in buckets && b !in plan.deletes)
            && (b in plan.deletes ==> b !in buckets)
            && (b in plan.puts + plan.deletes ==>
                  listing.Listed? && listing.entries.Some? &&
                  (b in listing.entries.value ==> ips * listing.entries.value[b] != {}))
  {
  }

  // ---- Runs: puts and deletes of this server, interleaved with changes by others

  datatype State = State(dns: Dns, put: set<string>, failed: bool, deleted: set<string>)

  datatype Action =
    | Put(b: string, entry: Option<set<Host>>, ok: bool)  // what the attempt leaves, successful or not
    | Delete(b: string, gone: bool)
    | Foreign(b: string, entry: Option<set<Host>>)

  function With(dns: Dns, b: string, entry: Option<set<Host>>): Dns {
    if entry.Some? then dns[b := entry.value] else dns - {b}
  }

  /** Puts run concurrently, each at most once; deletes start when all puts have succeeded. */
  predicate Enabled(plan: Plan, st: State, a: Action) {
    match a
    case Put(b, _, _) => b in plan.puts && b !in st.put
    case Delete(b, _) => b in plan.deletes && b !in st.deleted && plan.puts <= st.put && !st.failed
    case Foreign(_, _) => true
  }

  function Step(st: State, a: Action): State {
    match a
    case Put(b, entry, ok) =>
      st.(dns := With(st.dns, b, entry), put := st.put + {b}, failed := st.failed || !ok)
    case Delete(b, gone) => st.(dns := if gone then st.dns - {b} else st.dns, deleted := st.deleted + {b})
    case Foreign(b, entry) => st.(dns := With(st.dns, b, entry))
  }

  predicate ValidRun(plan: Plan, st: State, run: seq<Action>)
    decreases run
  {
    run == [] || (Enabled(plan, st, run[0]) && ValidRun(plan, Step(st, run[0]), run[1..]))
  }

  function Exec(st: State, run: seq<Action>): State
    decreases run
  {
    if run == [] then st else Exec(Step(st, run[0]), run[1..])
  }

  function Start(dns: Dns): State { State(dns, {}, false, {}) }

  /** The same entry, or none, in both. */
  predicate SameEntry(d: Dns, e: Dns, b: string) {
    (b in d <==> b in e) && (b in d ==> d[b] == e[b])
  }

  function Entry(dns: Dns, b: string): Option<set<Host>> { if b in dns then Some(dns[b]) else None }

  /** The entry is there and belongs to someone else. */
  predicate Theirs(ips: set<Host>, entry: Option<set<Host>>) { entry.Some? && ips * entry.value == {} }

  /** What the changes by others leave for b, if they start from `entry`. */
  function AfterOthers(entry: Option<set<Host>>, run: seq<Action>, b: string): Option<set<Host>>
    decreases run
  {
    if run == [] then entry
    else AfterOthers(if run[0].Foreign? && run[0].b == b then run[0].entry else entry, run[1..], b)
  }

  lemma {:induction false} OthersDecide(st: State, run: seq<Action>, b: string)
    requires forall a :: a in run && a.b == b ==> a.Foreign?
    ensures Entry(Exec(st, run).dns, b) == AfterOthers(Entry(st.dns, b), run, b)
    decreases run
  {
    if run != [] {
      assert run[0] in run;
      OthersDecide(Step(st, run[0]), run[1..], b);
    }
  }

  lemma {:induction false} TheirsIsTheirDoing(ips: set<Host>, entry: Option<set<Host>>, run: seq<Action>, b: string)
    requires !Theirs(ips, entry)
    ensures Theirs(ips, AfterOthers(entry, run, b)) <==> Theirs(ips, AfterOthers(None, run, b))
    decreases run
  {
    if run != [] && !(run[0].Foreign? && run[0].b == b) {
      TheirsIsTheirDoing(ips, entry, run[1..], b);
    }
  }

  /** The attempts of this server on b so far. */
  lemma {:induction false} AttemptsAreRecorded(plan: Plan, st: State, run: seq<Action>, b: string)
    requires ValidRun(plan, st, run)
    requires b !in Exec(st, run).put && b !in Exec(st, run).deleted
    ensures forall a :: a in run && a.b == b ==> a.Foreign?
    ensures b !in st.put && b !in st.deleted
    decreases run
  {
    if run != [] {
      AttemptsAreRecorded(plan, Step(st, run[0]), run[1..], b);
      assert run == [run[0]] + run[1..];
    }
  }

  /**
   In every run over a listing, the entry that this server is about to write or delete belongs to
   someone else if and only if others made it so after the listing was taken.
  */
  lemma {:induction false} WritesOthersEntryExactlyIfRaced(
      ips: set<Host>, buckets: seq<string>, dns: Dns, domainMissing: bool, run: seq<Action>, a: Action)
    requires var plan := PlanFor(ips, buckets, Listed(Some(dns), domainMissing));
             && ValidRun(plan, Start(dns), run)
             && Enabled(plan, Exec(Start(dns), run), a) && !a.Foreign?
    ensures Theirs(ips, Entry(Exec(Start(dns), run).dns, a.b)) <==> Theirs(ips, AfterOthers(None, run, a.b))
  {
    var plan := PlanFor(ips, buckets, Listed(Some(dns), domainMissing));
    PlanLeavesOthersAlone(ips, buckets, Listed(Some(dns), domainMissing), a.b);
    PutsAndDeletesArePlanned(plan, Start(dns), run);
    AttemptsAreRecorded(plan, Start(dns), run, a.b);
    OthersDecide(Start(dns), run, a.b);
    TheirsIsTheirDoing(ips, Entry(dns, a.b), run, a.b);
  }

  lemma {:induction false} PutsAndDeletesArePlanned(plan: Plan, st: State, run: seq<Action>)
    requires ValidRun(plan, st, run) && st.put <= plan.puts && st.deleted <= plan.deletes
    ensures Exec(st, run).put <= plan.puts && Exec(st, run).deleted <= plan.deletes
    decreases run
  {
    if run != [] {
      PutsAndDeletesArePlanned(plan, Step(st, run[0]), run[1..]);
    }
  }

  /** It does happen: another server registers a bucket after the listing, and the put replaces its entry. */
  lemma {:induction false} RegisteredMeanwhile(ips: set<Host>, b: string, other: set<Host>)
    requires ips !! other
    ensures var plan := PlanFor(ips, [b], Listed(Some(map[]), false));
            var run := [Foreign(b, Some(other))];
            && ValidRun(plan, Start(map[]), run)
            && Enabled(plan, Exec(Start(map[]), run), Put(b, Some(ips), true))
            && Exec(Start(map[]), run).dns == map[b := other]
  {
    var run := [Foreign(b, Some(other))];
    assert run[1..] == [];
    assert b in [b];
    assert Exec(Start(map[]), run) == Exec(Step(Start(map[]), run[0]), []);
  }

  /** What a run leaves for b, if it starts from `entry`: the last action on it decides. */
  function EntryAfter(entry: Option<set<Host>>, run: seq<Action>, b: string): Option<set<Host>>
    decreases run
  {
    if run == [] then entry
    else if run[0].b != b then EntryAfter(entry, run[1..], b)
    else
      match run[0]
      case Put(_, left, _) => EntryAfter(left, run[1..], b)
      case Delete(_, gone) => EntryAfter(if gone then None else entry, run[1..], b)
      case Foreign(_, left) => EntryAfter(left, run[1..], b)
  }

  lemma {:induction false} LastActionDecides(st: State, run: seq<Action>, b: string)
    ensures Entry(Exec(st, run).dns, b) == EntryAfter(Entry(st.dns, b), run, b)
    decreases run
  {
    if run != [] {
      LastActionDecides(Step(st, run[0]), run[1..], b);
    }
  }

  ghost predicate Succeeded(run: seq<Action>, b: string) {
    exists i :: 0 <= i < |run| && run[i].Put? && run[i].b == b && run[i].ok
  }

  lemma {:induction false} PutsSoFar(plan: Plan, st: State, run: seq<Action>)
    requires ValidRun(plan, st, run) && !Exec(st, run).failed
    ensures !st.failed && forall i :: 0 <= i < |run| && run[i].Put? ==> run[i].ok
    ensures forall b :: b in Exec(st, run).put ==> b in st.put || Succeeded(run, b)
    decreases run
  {
    if run != [] {
      var a, more := run[0], run[1..];
      PutsSoFar(plan, Step(st, a), more);
      forall i | 0 <= i < |run| && run[i].Put? ensures run[i].ok {
        if i > 0 {
          assert run[i] == more[i - 1];
        }
      }
      forall b | b in Exec(st, run).put && b !in st.put ensures Succeeded(run, b) {
        if a.Put? && a.b == b {
          assert run[0].b == b;
        } else {
          assert Succeeded(more, b);
          var i :| 0 <= i < |more| && more[i].Put? && more[i].b == b && more[i].ok;
          assert run[i + 1] == more[i];
        }
      }
    }
  }

  /** Deletion starts only after every planned put has succeeded and none has failed. */
  lemma {:induction false} DeletesFollowSuccessfulPuts(plan: Plan, dns: Dns, run: seq<Action>, b: string, gone: bool)
    requires ValidRun(plan, Start(dns), run) && Enabled(plan, Exec(Start(dns), run), Delete(b, gone))
    ensures b in plan.deletes && forall p :: p in plan.puts ==> Succeeded(run, p)
    ensures forall i :: 0 <= i < |run| && run[i].Put? ==> run[i].ok
  {
    PutsSoFar(plan, Start(dns), run);
  }

  lemma {:induction false} RunExtends(plan: Plan, st: State, run: seq<Action>, a: Action)
    requires ValidRun(plan, st, run) && Enabled(plan, Exec(st, run), a)
    ensures ValidRun(plan, st, run + [a]) && Exec(st, run + [a]) == Step(Exec(st, run), a)
    decreases run
  {
    if run == [] {
      assert run + [a] == [a] && [a][1..] == [];
    } else {
      RunExtends(plan, Step(st, run[0]), run[1..], a);
      assert (run + [a])[1..] == run[1..] + [a];
    }
  }

  // ---- A second run after a successful one

  /** A step of a successful run: a put leaves all our addresses, a delete works, nobody interferes. */
  predicate Good(ips: set<Host>, a: Action) {
    match a
    case Put(_, entry, ok) => ok && entry.Some? && ips <= entry.value
    case Delete(_, gone) => gone
    case Foreign(_, _) => false
  }

  /** What a successful run has made of the listed entries so far. */
  predicate Tracks(ips: set<Host>, dns: Dns, st: State, b: string) {
    if b in st.put then b in st.dns && ips <= st.dns[b]
    else if b in st.deleted then b !in st.dns
    else SameEntry(dns, st.dns, b)
  }

  lemma {:induction false} GoodRunTracks(ips: set<Host>, dns: Dns, plan: Plan, st: State, run: seq<Action>)
    requires plan.puts !! plan.deletes && st.put <= plan.puts && st.deleted <= plan.deletes
    requires ValidRun(plan, st, run) && forall a :: a in run ==> Good(ips, a)
    requires forall b :: Tracks(ips, dns, st, b)
    ensures forall b :: Tracks(ips, dns, Exec(st, run), b)
    decreases run
  {
    if run != [] {
      var a, st' := run[0], Step(st, run[0]);
      assert Good(ips, a);
      forall b ensures Tracks(ips, dns, st', b) {
        assert Tracks(ips, dns, st, b);
      }
      GoodRunTracks(ips, dns, plan, st', run[1..]);
    }
  }

  /** The plan has been carried out. */
  predicate Complete(plan: Plan, st: State) { plan.puts <= st.put && plan.deletes <= st.deleted }

  lemma {:induction false} CarryOutPuts(ips: set<Host>, plan: Plan, dns: Dns, todo: set<string>)
      returns (run: seq<Action>)
    requires todo <= plan.puts
    ensures ValidRun(plan, Start(dns), run) && forall a :: a in run ==> Good(ips, a)
    ensures var st := Exec(Start(dns), run); st.put == todo && st.deleted == {} && !st.failed
    decreases todo
  {
    run := [];
    if todo != {} {
      var b :| b in todo;
      run := CarryOutPuts(ips, plan, dns, todo - {b});
      RunExtends(plan, Start(dns), run, Put(b, Some(ips), true));
      run := run + [Put(b, Some(ips), true)];
    }
  }

  lemma {:induction false} CarryOutDeletes(ips: set<Host>, plan: Plan, dns: Dns, todo: set<string>)
      returns (run: seq<Action>)
    requires todo <= plan.deletes
    ensures ValidRun(plan, Start(dns), run) && forall a :: a in run ==> Good(ips, a)
    ensures var st := Exec(Start(dns), run); st.put == plan.puts && st.deleted == todo && !st.failed
    decreases todo
  {
    if todo == {} {
      run := CarryOutPuts(ips, plan, dns, plan.puts);
    } else {
      var b :| b in todo;
      run := CarryOutDeletes(ips, plan, dns, todo - {b});
      RunExtends(plan, Start(dns), run, Delete(b, true));
      run := run + [Delete(b, true)];
    }
  }

  /** Every plan can be carried out: each put leaves our addresses, each deletion works. */
  lemma {:induction false} PlansCanBeCarriedOut(ips: set<Host>, plan: Plan, dns: Dns) returns (run: seq<Action>)
    ensures ValidRun(plan, Start(dns), run) && Complete(plan, Exec(Start(dns), run))
    ensures forall a :: a in run ==> Good(ips, a)
  {
    run := CarryOutDeletes(ips, plan, dns, plan.deletes);
  }

  /**
   After a complete and successful run, reconciling again changes nothing if and only if the domain
   is not reported missing or no local bucket's entry is ours.
  */
  lemma {:induction false} SecondRunChangesNothing(
      ips: set<Host>, buckets: seq<string>, dns: Dns, domainMissing: bool, run: seq<Action>, missingAgain: bool)
    requires buckets != []
    requires var plan := PlanFor(ips, buckets, Listed(Some(dns), domainMissing));
             && ValidRun(plan, Start(dns), run)
             && Complete(plan, Exec(Start(dns), run))
    requires forall a :: a in run ==> Good(ips, a)
    ensures var after := Exec(Start(dns), run).dns;
            PlanFor(ips, buckets, Listed(Some(after), missingAgain)) == Plan({}, {}) <==>
              !missingAgain || forall b :: b in buckets && b in after ==> ips * after[b] == {}
  {
    var plan := PlanFor(ips, buckets, Listed(Some(dns), domainMissing));
    var end := Exec(Start(dns), run);
    PutsAndDeletesArePlanned(plan, Start(dns), run);
    GoodRunTracks(ips, dns, plan, Start(dns), run);
    var again := PlanFor(ips, buckets, Listed(Some(end.dns), missingAgain));
    forall b ensures b in again.puts <==> b in buckets && missingAgain && b in end.dns && Ours(ips, end.dns[b]) {
      SettledClass(ips, buckets, dns, domainMissing, end, b);
    }
    forall b ensures b !in again.deletes {
      SettledClass(ips, buckets, dns, domainMissing, end, b);
    }
  }

  lemma {:induction false} SettledClass(
      ips: set<Host>, buckets: seq<string>, dns: Dns, domainMissing: bool, end: State, b: string)
    requires buckets != [] && Tracks(ips, dns, end, b)
    requires var plan := PlanFor(ips, buckets, Listed(Some(dns), domainMissing));
             end.put == plan.puts && end.deleted == plan.deletes
    ensures b in buckets ==> b in end.dns && (Ours(ips, end.dns[b]) ==> ips <= end.dns[b])
    ensures b !in buckets && b in end.dns ==> !Ours(ips, end.dns[b])
  {
    if b in dns {
      NoDifference(ips, dns[b]);
    }
  }
}
