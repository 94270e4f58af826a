/**
 Grouping of the lock records that the peers report into one entry per lock (`topLockEntries`).
 Both the locks of a peer and the entries are maps, visited in any order.
*/
module TopLocks {
  import opened Common

  /** lockRequesterInfo, as far as it is shown. */
  datatype Record = Record(uid: string, writer: bool, timestamp: int, source: string, owner: string, quorum: int)

  /** The records of a peer, by resource. */
  type Locks = map<string, seq<Record>>

  datatype PeerLocks = PeerLocks(addr: string, locks: Locks)

  datatype LockEntry = LockEntry(
    timestamp: int, resource: string, kind: string, source: string, servers: seq<string>,
    owner: string, id: string, quorum: int)

  type Peers = seq<Option<PeerLocks>>

  type Entries = map<string, LockEntry>

  /** lriToLockEntry, for any server list. */
  function EntryOf(r: Record, resource: string, servers: seq<string>): LockEntry {
    LockEntry(r.timestamp, resource, if r.writer then "WRITE" else "READ", r.source, servers, r.owner, r.uid, r.quorum)
  }

  // ---- What the entries should say

  /** The i-th record of resource k. */
  datatype Place = Place(k: string, i: int)

  ghost function Places(locks: Locks): set<Place> {
    set k, i | k in locks && 0 <= i < |locks[k]| :: Place(k, i)
  }

  predicate Visited(x: Place, visited: set<string>, k: string, n: int) { x.k in visited || (x.k == k && x.i < n) }

  ghost predicate Holds(locks: Locks, x: Place, uid: string) {
    x in Places(locks) && locks[x.k][x.i].uid == uid
  }

  /** The visited places where a peer reports lock `uid`. */
  ghost function Held(locks: Locks, visited: set<string>, k: string, n: int, uid: string): set<Place> {
    set x | x in Places(locks) && Holds(locks, x, uid) && Visited(x, visited, k, n)
  }

  /** The number of records of lock `uid` at a peer. */
  ghost function HeldBy(p: PeerLocks, uid: string): nat { |Held(p.locks, p.locks.Keys, "", 0, uid)| }

  function Repeat(x: string, n: nat): seq<string> { seq(n, _ => x) }

  /** One address per record of the lock, peer by peer. */
  ghost function Holders(peers: Peers, uid: string): seq<string> {
    if peers == [] then []
    else
      var last := peers[|peers| - 1];
      Holders(peers[..|peers| - 1], uid) + if last == None then [] else Repeat(last.value.addr, HeldBy(last.value, uid))
  }

  /** Some peer reports record `r` for resource `k`. */
  ghost predicate Reported(peers: Peers, k: string, r: Record) {
    exists p :: 0 <= p < |peers| && peers[p].Some? && k in peers[p].value.locks && r in peers[p].value.locks[k]
  }

  /** The entry's fields, apart from its servers, are those of the record and its resource. */
  predicate Displays(e: LockEntry, k: string, r: Record) {
    && e.timestamp == r.timestamp && e.resource == k && e.source == r.source
    && e.kind == (if r.writer then "WRITE" else "READ")
    && e.owner == r.owner && e.id == r.uid && e.quorum == r.quorum
  }

  /** The entry shows one of the reported records of its lock. */
  ghost predicate Sourced(peers: Peers, e: LockEntry) {
    exists k, r :: Reported(peers, k, r) && Displays(e, k, r)
  }

  function Servers(m: Entries, uid: string): seq<string> { if uid in m then m[uid].servers else [] }

  ghost predicate Sound(peers: Peers, m: Entries) {
    forall uid :: uid in m ==> m[uid].id == uid && m[uid].servers != [] && Sourced(peers, m[uid])
  }

  /** After `before`, the visited records of the current peer have been added. */
  ghost predicate Tallied(
      m: Entries, before: Entries, addr: string, locks: Locks, visited: set<string>, k: string, n: int) {
    forall uid :: Servers(m, uid) == Servers(before, uid) + Repeat(addr, |Held(locks, visited, k, n, uid)|)
  }

  // ---- The loops

  /** The body of the innermost loop. */
  function AddRecord(m: Entries, r: Record, k: string, addr: string): Entries {
    if r.uid in m then m[r.uid := m[r.uid].(servers := m[r.uid].servers + [addr])]
    else m[r.uid := EntryOf(r, k, [addr])]
  }

  lemma {:induction false} HeldNext(locks: Locks, visited: set<string>, k: string, n: nat, uid: string)
    requires k in locks && n < |locks[k]| && k !in visited
    ensures |Held(locks, visited, k, n + 1, uid)| ==
            |Held(locks, visited, k, n, uid)| + if locks[k][n].uid == uid then 1 else 0
  {
    var was, now := Held(locks, visited, k, n, uid), Held(locks, visited, k, n + 1, uid);
    var here := Place(k, n);
    assert here in Places(locks);
    forall x ensures x in now <==> x in was || (x == here && Holds(locks, x, uid)) {
    }
    if locks[k][n].uid == uid {
      assert now == was + {here};
    } else {
      assert now == was;
    }
  }

  lemma {:induction false} TalliedNext(
      m: Entries, before: Entries, addr: string, locks: Locks, visited: set<string>, k: string, n: nat)
    requires k in locks && n < |locks[k]| && k !in visited && Tallied(m, before, addr, locks, visited, k, n)
    ensures Tallied(AddRecord(m, locks[k][n], k, addr), before, addr, locks, visited, k, n + 1)
  {
    var m' := AddRecord(m, locks[k][n], k, addr);
    forall uid
      ensures Servers(m', uid) == Servers(before, uid) + Repeat(addr, |Held(locks, visited, k, n + 1, uid)|)
    {
      HeldNext(locks, visited, k, n, uid);
      var c := |Held(locks, visited, k, n, uid)|;
      assert Servers(m, uid) == Servers(before, uid) + Repeat(addr, c);
      if uid == locks[k][n].uid {
        assert Servers(m', uid) == Servers(m, uid) + [addr];
        assert Repeat(addr, c + 1) == Repeat(addr, c) + [addr];
        Associate(Servers(before, uid), Repeat(addr, c), [addr]);
      }
    }
  }

  lemma {:induction false} SoundNext(peers: Peers, m: Entries, r: Record, k: string, addr: string)
    requires Sound(peers, m) && Reported(peers, k, r)
    ensures Sound(peers, AddRecord(m, r, k, addr))
  {
    if r.uid in m {
      SourcedAnyServers(peers, m[r.uid], m[r.uid].servers + [addr]);
    } else {
      SourcedByRecord(peers, r, k, [addr]);
    }
  }

  lemma {:induction false} SourcedByRecord(peers: Peers, r: Record, k: string, servers: seq<string>)
    requires Reported(peers, k, r)
    ensures Sourced(peers, EntryOf(r, k, servers))
  {
    assert Displays(EntryOf(r, k, servers), k, r);
  }

  lemma {:induction false} SourcedAnyServers(peers: Peers, e: LockEntry, servers: seq<string>)
    requires Sourced(peers, e)
    ensures Sourced(peers, e.(servers := servers))
  {
    var k, r :| Reported(peers, k, r) && Displays(e, k, r);
    assert Displays(e.(servers := servers), k, r);
  }

  /** The records of one resource. */
  method AddResource(
      ghost peers: Peers, ghost before: Entries, m: Entries, p: PeerLocks, ghost visited: set<string>, k: string)
      returns (m': Entries)
    requires Some(p) in peers && k in p.locks && k !in visited
    requires Sound(peers, m) && Tallied(m, before, p.addr, p.locks, visited, k, 0)
    ensures Sound(peers, m') && Tallied(m', before, p.addr, p.locks, visited, k, |p.locks[k]|)
  {
    m' := m;
    var v := p.locks[k];
    var i := 0;
    while i < |v|
      invariant i <= |v| && Sound(peers, m') && Tallied(m', before, p.addr, p.locks, visited, k, i)
    {
      assert Reported(peers, k, v[i]);
      TalliedNext(m', before, p.addr, p.locks, visited, k, i);
      SoundNext(peers, m', v[i], k, p.addr);
      m' := AddRecord(m', v[i], k, p.addr);
      i := i + 1;
    }
  }

  lemma {:induction false} HeldSame(locks: Locks, a: set<string>, k: string, n: int, b: set<string>, q: string, l: int)
    requires forall x :: x in Places(locks) ==> (Visited(x, a, k, n) <==> Visited(x, b, q, l))
    ensures forall uid :: Held(locks, a, k, n, uid) == Held(locks, b, q, l, uid)
  {
    forall uid ensures Held(locks, a, k, n, uid) == Held(locks, b, q, l, uid) {
      assert forall x :: x in Held(locks, a, k, n, uid) <==> x in Held(locks, b, q, l, uid);
    }
  }

  lemma {:induction false} TalliedStart(m: Entries, p: PeerLocks)
    ensures Tallied(m, m, p.addr, p.locks, {}, "", 0)
  {
    forall uid ensures Servers(m, uid) == Servers(m, uid) + Repeat(p.addr, |Held(p.locks, {}, "", 0, uid)|) {
      assert Held(p.locks, {}, "", 0, uid) == {};
    }
  }

  /** The records of one peer. */
  method AddPeer(ghost peers: Peers, m: Entries, p: PeerLocks) returns (m': Entries)
    requires Some(p) in peers && Sound(peers, m)
    ensures Sound(peers, m')
    ensures forall uid :: Servers(m', uid) == Servers(m, uid) + Repeat(p.addr, HeldBy(p, uid))
  {
    m' := m;
    var rest := p.locks.Keys;
    ghost var visited: set<string> := {};
    TalliedStart(m, p);
    while rest != {}
      invariant rest <= p.locks.Keys && visited == p.locks.Keys - rest
      invariant Sound(peers, m') && Tallied(m', m, p.addr, p.locks, visited, "", 0)
      decreases rest
    {
      var k :| k in rest;
      HeldSame(p.locks, visited, "", 0, visited, k, 0);
      m' := AddResource(peers, m, m', p, visited, k);
      HeldSame(p.locks, visited, k, |p.locks[k]|, visited + {k}, "", 0);
      rest, visited := rest - {k}, visited + {k};
    }
    assert visited == p.locks.Keys;
  }

  lemma {:induction false} HoldersNext(peers: Peers, i: nat)
    requires i < |peers|
    ensures forall uid :: Holders(peers[..i + 1], uid) ==
              if peers[i] == None then Holders(peers[..i], uid)
              else Holders(peers[..i], uid) + Repeat(peers[i].value.addr, HeldBy(peers[i].value, uid))
  {
    assert peers[..i + 1][..i] == peers[..i];
  }

  /** The first half of topLockEntries: one entry per lock, with one address per record. */
  method GroupByLock(peers: Peers) returns (m: Entries)
    ensures Sound(peers, m)
    ensures forall uid :: Servers(m, uid) == Holders(peers, uid)
  {
    m := map[];
    var i := 0;
    while i < |peers|
      invariant i <= |peers| && Sound(peers, m)
      invariant forall uid :: Servers(m, uid) == Holders(peers[..i], uid)
    {
      HoldersNext(peers, i);
      if peers[i].Some? {
        assert Some(peers[i].value) in peers;
        m := AddPeer(peers, m, peers[i].value);
      }
      i := i + 1;
    }
    assert peers[..i] == peers;
  }

  // ---- Selection and order

  ghost predicate Sorted(s: seq<LockEntry>) {
    forall i, j :: 0 <= i < j < |s| ==> s[i].timestamp <= s[j].timestamp
  }

  ghost predicate DistinctLocks(s: seq<LockEntry>) {
    forall i, j :: 0 <= i < j < |s| ==> s[i].id != s[j].id
  }

  lemma {:induction false} FirstThenSorted(x: LockEntry, t: seq<LockEntry>)
    requires Sorted(t) && DistinctLocks(t)
    requires forall y :: y in t ==> x.timestamp <= y.timestamp && x.id != y.id
    ensures Sorted([x] + t) && DistinctLocks([x] + t)
  {
    var s := [x] + t;
    forall i, j | 0 <= i < j < |s| ensures s[i].timestamp <= s[j].timestamp && s[i].id != s[j].id {
      assert s[j] == t[j - 1] && s[j] in t;
      if i > 0 {
        assert s[i] == t[i - 1];
      }
    }
  }

  /** Inserting an entry by time, as part of sorting. */
  function InsertByTime(s: seq<LockEntry>, e: LockEntry): (t: seq<LockEntry>)
    requires Sorted(s) && DistinctLocks(s) && forall x :: x in s ==> x.id != e.id
    ensures Sorted(t) && DistinctLocks(t)
    ensures forall x :: x in t <==> x in s || x == e
  {
    if s == [] || e.timestamp < s[0].timestamp then
      FirstThenSorted(e, s);
      [e] + s
    else
      var t := InsertByTime(s[1..], e);
      FirstThenSorted(s[0], t);
      [s[0]] + t
  }

  predicate Shows(e: LockEntry, stale: bool) { stale || |e.servers| >= e.quorum }

  /** Every record of a lock asks for the same quorum. */
  ghost predicate QuorumsAgree(peers: Peers) {
    forall k, r, q, s :: Reported(peers, k, r) && Reported(peers, q, s) && r.uid == s.uid ==> r.quorum == s.quorum
  }

  ghost predicate HasEntry(s: seq<LockEntry>, uid: string) { exists e :: e in s && e.id == uid }

  method Select(m: Entries, stale: bool) returns (s: seq<LockEntry>)
    requires forall uid :: uid in m ==> m[uid].id == uid
    ensures Sorted(s) && DistinctLocks(s)
    ensures forall e :: e in s <==> e.id in m && m[e.id] == e && Shows(e, stale)
  {
    s := [];
    var rest := m.Keys;
    while rest != {}
      invariant rest <= m.Keys && Sorted(s) && DistinctLocks(s)
      invariant forall e :: e in s <==> e.id in m && e.id !in rest && m[e.id] == e && Shows(e, stale)
      decreases rest
    {
      var uid :| uid in rest;
      if Shows(m[uid], stale) {
        s := InsertByTime(s, m[uid]);
      }
      rest := rest - {uid};
    }
  }

  /**
   topLockEntries. Whatever order the maps are visited in: at most one entry per lock, sorted by
   time, whose servers are one address per reported record. With `stale` every reported lock has
   an entry; without it, when the records of a lock agree on the quorum, exactly those that reach it.
  */
  method TopLockEntries(peers: Peers, stale: bool) returns (s: seq<LockEntry>)
    ensures Sorted(s) && DistinctLocks(s)
    ensures forall e :: e in s ==> e.servers == Holders(peers, e.id) != [] && Sourced(peers, e) && Shows(e, stale)
    ensures stale ==> forall uid :: HasEntry(s, uid) <==> Holders(peers, uid) != []
    ensures !stale && QuorumsAgree(peers) ==>
              forall k, r :: Reported(peers, k, r) ==> (HasEntry(s, r.uid) <==> |Holders(peers, r.uid)| >= r.quorum)
  {
    var m := GroupByLock(peers);
    s := Select(m, stale);
    forall e | e in s ensures e.servers == Holders(peers, e.id) != [] && Sourced(peers, e) {
      assert Servers(m, e.id) == Holders(peers, e.id);
    }
    forall uid | stale ensures HasEntry(s, uid) <==> Holders(peers, uid) != [] {
      assert Servers(m, uid) == Holders(peers, uid);
      if uid in m {
        assert m[uid] in s;
      }
    }
    if !stale && QuorumsAgree(peers) {
      forall k, r | Reported(peers, k, r) ensures HasEntry(s, r.uid) <==> |Holders(peers, r.uid)| >= r.quorum {
        ReportedHasHolder(peers, k, r);
        QuorumDecides(peers, m, s, k, r);
      }
    }
  }

  lemma {:induction false} QuorumDecides(peers: Peers, m: Entries, s: seq<LockEntry>, k: string, r: Record)
    requires Sound(peers, m) && QuorumsAgree(peers) && Reported(peers, k, r)
    requires Servers(m, r.uid) == Holders(peers, r.uid) != []
    requires forall e :: e in s <==> e.id in m && m[e.id] == e && Shows(e, false)
    ensures HasEntry(s, r.uid) <==> |Holders(peers, r.uid)| >= r.quorum
  {
    var e := m[r.uid];
    assert Sourced(peers, e);
    var q, t :| Reported(peers, q, t) && Displays(e, q, t);
    assert t.uid == r.uid && e.quorum == r.quorum;
    if Shows(e, false) {
      assert e in s;
    }
  }

  /** A reported lock has a holder. */
  lemma {:induction false} ReportedHasHolder(peers: Peers, k: string, r: Record)
    requires Reported(peers, k, r)
    ensures Holders(peers, r.uid) != []
    decreases |peers|
  {
    var last := |peers| - 1;
    var p :| 0 <= p < |peers| && peers[p].Some? && k in peers[p].value.locks && r in peers[p].value.locks[k];
    if p == last {
      var here := peers[p].value;
      var i :| 0 <= i < |here.locks[k]| && here.locks[k][i] == r;
      assert Place(k, i) in Held(here.locks, here.locks.Keys, "", 0, r.uid);
    } else {
      assert peers[..last][p] == peers[p];
      ReportedHasHolder(peers[..last], k, r);
    }
  }

  // ---- When the server list counts servers

  ghost predicate NoRepeat(s: seq<string>) { forall i, j :: 0 <= i < j < |s| ==> s[i] != s[j] }

  ghost predicate Holding(peers: Peers, p: int, uid: string) {
    0 <= p < |peers| && peers[p].Some? && HeldBy(peers[p].value, uid) > 0
  }

  /** Every peer reports the lock at most once, and no two peers that report it share an address. */
  ghost predicate OnePerServer(peers: Peers, uid: string) {
    && (forall p :: Holding(peers, p, uid) ==> HeldBy(peers[p].value, uid) <= 1)
    && (forall p, q :: Holding(peers, p, uid) && Holding(peers, q, uid) && p != q ==>
          peers[p].value.addr != peers[q].value.addr)
  }

  lemma {:induction false} NoRepeatSplits(a: seq<string>, b: seq<string>)
    ensures NoRepeat(a + b) <==> NoRepeat(a) && NoRepeat(b) && forall x :: x in a ==> x !in b
  {
    var s := a + b;
    forall i | 0 <= i < |a| ensures s[i] == a[i] {
    }
    forall i | 0 <= i < |b| ensures s[|a| + i] == b[i] {
    }
    if NoRepeat(s) {
      forall i, j | 0 <= i < j < |b| ensures b[i] != b[j] {
        assert s[|a| + i] != s[|a| + j];
      }
      forall i, j | 0 <= i < |a| && 0 <= j < |b| ensures a[i] != b[j] {
        assert s[i] != s[|a| + j];
      }
    } else {
      var i, j :| 0 <= i < j < |s| && s[i] == s[j];
      if i >= |a| {
        assert b[i - |a|] == b[j - |a|];
      } else if j >= |a| {
        assert a[i] == b[j - |a|] && a[i] in b;
      } else {
        assert a[i] == a[j];
      }
    }
  }

  ghost predicate HeldAt(peers: Peers, uid: string, x: string) {
    exists p :: Holding(peers, p, uid) && peers[p].value.addr == x
  }

  lemma {:induction false} HeldAtSplits(peers: Peers, uid: string, x: string, n: nat)
    requires n + 1 == |peers|
    ensures HeldAt(peers, uid, x) <==>
            HeldAt(peers[..n], uid, x) || (Holding(peers, n, uid) && peers[n].value.addr == x)
  {
    var front := peers[..n];
    if p :| Holding(front, p, uid) && front[p].value.addr == x {
      assert Holding(peers, p, uid) && peers[p].value.addr == x;
    }
    if p :| Holding(peers, p, uid) && peers[p].value.addr == x && p < n {
      assert Holding(front, p, uid) && front[p].value.addr == x;
    }
  }

  /** The listed addresses are those of the peers that report the lock. */
  lemma {:induction false} HoldersAre(peers: Peers, uid: string, x: string)
    ensures x in Holders(peers, uid) <==> HeldAt(peers, uid, x)
    decreases |peers|
  {
    if peers != [] {
      var n := |peers| - 1;
      HoldersAre(peers[..n], uid, x);
      HeldAtSplits(peers, uid, x, n);
      if Holding(peers, n, uid) {
        assert Repeat(peers[n].value.addr, HeldBy(peers[n].value, uid))[0] == peers[n].value.addr;
      }
    }
  }

  lemma {:induction false} OnePerServerSplits(peers: Peers, uid: string, n: nat)
    requires n + 1 == |peers|
    ensures OnePerServer(peers, uid) <==>
            && OnePerServer(peers[..n], uid)
            && (Holding(peers, n, uid) ==>
                  HeldBy(peers[n].value, uid) <= 1 && peers[n].value.addr !in Holders(peers[..n], uid))
  {
    var front := peers[..n];
    assert forall p :: 0 <= p < n ==> (Holding(front, p, uid) <==> Holding(peers, p, uid));
    if Holding(peers, n, uid) {
      HoldersAre(front, uid, peers[n].value.addr);
    }
  }

  lemma {:induction false} RepeatedHolders(a: seq<string>, x: string, n: nat)
    ensures NoRepeat(a + Repeat(x, n)) <==> NoRepeat(a) && (n > 0 ==> n <= 1 && x !in a)
  {
    var all := Repeat(x, n);
    NoRepeatSplits(a, all);
    if n > 0 {
      assert all[0] == x;
    }
    if n > 1 {
      assert all[0] == all[1];
    }
  }

  /** A server is listed once, and the list counts servers, exactly under that condition. */
  lemma {:induction false} ServersAreDistinctExactly(peers: Peers, uid: string)
    ensures NoRepeat(Holders(peers, uid)) <==> OnePerServer(peers, uid)
    decreases |peers|
  {
    if peers != [] {
      var n := |peers| - 1;
      ServersAreDistinctExactly(peers[..n], uid);
      OnePerServerSplits(peers, uid, n);
      if peers[n].Some? {
        RepeatedHolders(Holders(peers[..n], uid), peers[n].value.addr, HeldBy(peers[n].value, uid));
      } else {
        assert Holders(peers, uid) == Holders(peers[..n], uid);
      }
    }
  }

  /** A server can be listed twice for one lock: the list counts records, not servers. */
  lemma {:induction false} ServerListedTwice(addr: string, r: Record)
    ensures Holders([Some(PeerLocks(addr, map["a" := [r], "b" := [r]]))], r.uid) == [addr, addr]
  {
    var p := PeerLocks(addr, map["a" := [r], "b" := [r]]);
    var peers := [Some(p)];
    assert Held(p.locks, p.locks.Keys, "", 0, r.uid) == {Place("a", 0), Place("b", 0)};
    assert peers[..0] == [] && Holders([], r.uid) == [];
    assert Repeat(addr, 2) == [addr, addr];
  }
}
