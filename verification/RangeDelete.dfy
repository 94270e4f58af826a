/**
 Deleting from a slice while ranging over it, as `bucketDone` does with the queued buckets and
 the notification handler with stale queue entries:

     for i, v := range s { if hit(v) { s = append(s[:i], s[i+1:]...) } }

 The range keeps the original slice header, so it always runs over the original length; each
 deletion shifts the elements inside the same backing array and shortens only `s`.
*/
module RangeDelete {
  import opened Common

  /** What the loop leaves: after a deletion the next element is not looked at. */
  function Sweep<T>(q: seq<T>, hit: T -> bool): seq<T> {
    if q == [] then []
    else if !hit(q[0]) then [q[0]] + Sweep(q[1..], hit)
    else if |q| == 1 then []
    else [q[1]] + Sweep(q[2..], hit)
  }

  /** The elements that are not hit, in order. */
  function Without<T>(q: seq<T>, hit: T -> bool): seq<T> {
    if q == [] then [] else (if hit(q[0]) then [] else [q[0]]) + Without(q[1..], hit)
  }

  /** An element before the last one is hit, and so is the last one. */
  predicate LastHitAgain<T>(q: seq<T>, hit: T -> bool) {
    |q| > 0 && hit(q[|q| - 1]) && exists j :: 0 <= j < |q| - 1 && hit(q[j])
  }

  predicate AdjacentHits<T>(q: seq<T>, hit: T -> bool) {
    exists j :: 0 <= j < |q| - 1 && hit(q[j]) && hit(q[j + 1])
  }

  /** What the loop makes of the slice, or None if an iteration panics; `guarded` tests i < len(s). */
  function Ranged<T>(q: seq<T>, hit: T -> bool, guarded: bool): Option<seq<T>> {
    if !guarded && LastHitAgain(q, hit) then None else Some(Sweep(q, hit))
  }

  /** `b` is `a` with a[i+1..m] moved one place to the left. */
  ghost predicate Shifted<T>(a: seq<T>, b: seq<T>, i: nat, m: nat) {
    && i < m <= |a| == |b|
    && (forall k :: 0 <= k < i ==> b[k] == a[k])
    && (forall k :: i <= k < m - 1 ==> b[k] == a[k + 1])
    && (forall k :: m - 1 <= k < |a| ==> b[k] == a[k])
  }

  /** append(s[:i], s[i+1:]...) on the backing array; `m` is the length of s. */
  method ShiftLeft<T>(a: array<T>, i: nat, m: nat)
    requires i < m <= a.Length
    modifies a
    ensures Shifted(old(a[..]), a[..], i, m)
  {
    var j := i;
    while j < m - 1
      invariant i <= j <= m - 1
      invariant forall k :: 0 <= k < i || j <= k < a.Length ==> a[k] == old(a[k])
      invariant forall k :: i <= k < j ==> a[k] == old(a[k + 1])
    {
      a[j] := a[j + 1];
      j := j + 1;
    }
  }

  /**
   The loop has reached position i, s is a[..m] and the original slice was q: the elements
   before i are settled, and those from i on are the original ones from p on.
  */
  ghost predicate Settled<T>(a: seq<T>, i: nat, m: nat, q: seq<T>, hit: T -> bool)
    requires i <= |q| && m <= |q| <= |a|
  {
    var p := i + (|q| - m);
    if p <= |q| then a[i..m] == q[p..] && Sweep(q, hit) == a[..i] + Sweep(q[p..], hit)
    else a[..m] == Sweep(q, hit)
  }

  /** Behind s the array repeats the last element; s got shorter exactly if something was hit. */
  ghost predicate Stale<T>(a: seq<T>, i: nat, m: nat, q: seq<T>, hit: T -> bool)
    requires i <= |q| && m <= |q| <= |a|
  {
    && (forall k :: m <= k < |q| ==> a[k] == q[|q| - 1])
    && (m == |q| ==> forall j :: 0 <= j < i ==> !hit(q[j]))
    && (m < |q| ==> exists j :: 0 <= j < i && hit(q[j]))
  }

  ghost predicate Reached<T>(a: seq<T>, i: nat, m: nat, q: seq<T>, hit: T -> bool) {
    i <= |q| && m <= |q| <= |a| && Settled(a, i, m, q, hit) && Stale(a, i, m, q, hit)
  }

  lemma {:induction false} ReachedAt<T>(a: seq<T>, i: nat, m: nat, q: seq<T>, hit: T -> bool)
    requires Reached(a, i, m, q, hit) && i < |q|
    ensures i < m ==> a[i] == q[i + (|q| - m)]
    ensures m <= i ==> a[i] == q[|q| - 1]
    ensures m <= i && hit(a[i]) ==> LastHitAgain(q, hit)
    ensures i == |q| - 1 && (m <= i ==> !hit(a[i])) ==> !LastHitAgain(q, hit)
  {
    if i < m {
      assert a[i] == a[i..m][0];
    }
  }

  lemma {:induction false} ReachedKeep<T>(a: seq<T>, i: nat, m: nat, q: seq<T>, hit: T -> bool)
    requires Reached(a, i, m, q, hit) && i < |q|
    requires i < m ==> !hit(a[i])
    ensures Reached(a, i + 1, m, q, hit)
  {
    var p := i + (|q| - m);
    ReachedAt(a, i, m, q, hit);
    if i < m {
      assert a[i + 1..m] == a[i..m][1..] == q[p..][1..] == q[p + 1..];
      assert a[..i + 1] + Sweep(q[p + 1..], hit) == a[..i] + ([a[i]] + Sweep(q[p + 1..], hit));
    } else if p == |q| {
      assert a[..m] == a[..i] + Sweep(q[p..], hit);
    }
  }

  lemma {:induction false} SettledDelete<T>(a: seq<T>, i: nat, m: nat, q: seq<T>, hit: T -> bool, b: seq<T>)
    requires i < m <= |q| <= |a| && Settled(a, i, m, q, hit) && hit(a[i]) && Shifted(a, b, i, m)
    ensures Settled(b, i + 1, m - 1, q, hit)
  {
    var n := |q|;
    var p := i + (n - m);
    var live := a[i..m];
    assert a[i] == live[0] == q[p];
    assert b[..i] == a[..i];
    if p + 1 < n {
      var x, more := q[p + 1], Sweep(q[p + 2..], hit);
      assert b[i] == live[1] == x;
      assert b[i + 1..m - 1] == live[2..] == q[p + 2..];
      assert q[p..][2..] == q[p + 2..];
      assert b[..i + 1] == a[..i] + [x];
      Associate(a[..i], [x], more);
    } else {
      assert b[..m - 1] == a[..i] + [];
    }
  }

  lemma {:induction false} StaleDelete<T>(a: seq<T>, i: nat, m: nat, q: seq<T>, hit: T -> bool, b: seq<T>)
    requires i < m <= |q| <= |a| && Reached(a, i, m, q, hit) && hit(a[i]) && Shifted(a, b, i, m)
    ensures Stale(b, i + 1, m - 1, q, hit)
  {
    assert a[m - 1] == a[i..m][m - 1 - i] == q[|q| - 1];
    ReachedAt(a, i, m, q, hit);
  }

  lemma {:induction false} ReachedDelete<T>(a: seq<T>, i: nat, m: nat, q: seq<T>, hit: T -> bool, b: seq<T>)
    requires Reached(a, i, m, q, hit) && i < m && hit(a[i]) && Shifted(a, b, i, m)
    ensures Reached(b, i + 1, m - 1, q, hit)
  {
    SettledDelete(a, i, m, q, hit, b);
    StaleDelete(a, i, m, q, hit, b);
  }

  lemma {:induction false} ReachedStart<T>(a: seq<T>, q: seq<T>, hit: T -> bool)
    requires q <= a
    ensures Reached(a, 0, |q|, q, hit)
  {
    assert a[0..|q|] == q && q[0..] == q;
    assert a[..0] + Sweep(q, hit) == Sweep(q, hit);
  }

  lemma {:induction false} ReachedEnd<T>(a: seq<T>, m: nat, q: seq<T>, hit: T -> bool)
    requires Reached(a, |q|, m, q, hit)
    ensures a[..m] == Sweep(q, hit)
  {
    if m == |q| {
      assert a[..m] + [] == a[..m];
    }
  }

  /** One iteration; it panics when s[i+1:] is out of range. */
  method RangeStep<T>(a: array<T>, i: nat, m: nat, hit: T -> bool, guarded: bool, ghost q: seq<T>)
      returns (panicked: bool, m': nat)
    requires i < |q| && Reached(a[..], i, m, q, hit)
    modifies a
    ensures panicked <==> !guarded && m <= i && hit(old(a[i]))
    ensures !panicked ==> Reached(a[..], i + 1, m', q, hit)
    ensures a[|q|..] == old(a[|q|..])
  {
    ghost var before := a[..];
    if hit(a[i]) && (!guarded || i < m) {
      if i + 1 > m {
        return true, m;
      }
      ShiftLeft(a, i, m);
      ReachedDelete(before, i, m, q, hit, a[..]);
      return false, m - 1;
    }
    ReachedKeep(before, i, m, q, hit);
    return false, m;
  }

  /**
   The loop over the first `n` elements of the backing array. `guarded` is the extra test
   `i < len(s)` of the notification handler. It returns the length left, unless an iteration
   panics.
  */
  method DeleteWhileRanging<T>(a: array<T>, n: nat, hit: T -> bool, guarded: bool)
      returns (panicked: bool, m: nat)
    requires n <= a.Length
    modifies a
    ensures panicked <==> Ranged(old(a[..n]), hit, guarded) == None
    ensures !panicked ==> m <= n && Ranged(old(a[..n]), hit, guarded) == Some(a[..m])
    ensures a[n..] == old(a[n..])
  {
    ghost var q := a[..n];
    panicked, m := false, n;
    ReachedStart(a[..], q, hit);
    var i := 0;
    while i < n
      invariant i <= n && Reached(a[..], i, m, q, hit)
      invariant i == n && !guarded ==> !LastHitAgain(q, hit)
      invariant a[n..] == old(a[n..])
    {
      ReachedAt(a[..], i, m, q, hit);
      panicked, m := RangeStep(a, i, m, hit, guarded, q);
      if panicked {
        return;
      }
      i := i + 1;
    }
    ReachedEnd(a[..], m, q, hit);
    assert a[..][..m] == a[..m];
  }

  // ---- What the loop guarantees

  /** Only hit elements disappear, and the others keep their order. */
  lemma {:induction false} SweepDropsOnlyHits<T>(q: seq<T>, hit: T -> bool)
    ensures Without(Sweep(q, hit), hit) == Without(q, hit)
  {
    if q != [] {
      if !hit(q[0]) {
        SweepDropsOnlyHits(q[1..], hit);
        assert Sweep(q, hit)[1..] == Sweep(q[1..], hit);
      } else if |q| > 1 {
        SweepDropsOnlyHits(q[2..], hit);
        assert q[1..][1..] == q[2..];
        assert Sweep(q, hit)[1..] == Sweep(q[2..], hit);
      }
    }
  }

  lemma {:induction false} WithoutHasNoHits<T>(q: seq<T>, hit: T -> bool)
    ensures forall x :: x in Without(q, hit) ==> !hit(x)
  {
    if q != [] {
      WithoutHasNoHits(q[1..], hit);
    }
  }

  lemma {:induction false} WithoutMembers<T>(q: seq<T>, hit: T -> bool, x: T)
    ensures x in Without(q, hit) <==> x in q && !hit(x)
  {
    if q != [] {
      WithoutMembers(q[1..], hit, x);
      assert x in q <==> x == q[0] || x in q[1..];
    }
  }

  lemma {:induction false} WithoutIsSame<T>(q: seq<T>, hit: T -> bool)
    ensures Without(q, hit) == q <==> forall x :: x in q ==> !hit(x)
  {
    if q != [] {
      WithoutIsSame(q[1..], hit);
      WithoutHasNoHits(q, hit);
      assert q == [q[0]] + q[1..];
    }
  }

  lemma {:induction false} AdjacentLater<T>(q: seq<T>, hit: T -> bool, d: nat)
    requires 1 <= d <= 2 && d <= |q| && !hit(q[d - 1])
    ensures AdjacentHits(q, hit) <==> AdjacentHits(q[d..], hit)
  {
    var more := q[d..];
    if AdjacentHits(q, hit) {
      var j :| 0 <= j < |q| - 1 && hit(q[j]) && hit(q[j + 1]);
      assert j >= d;
      assert hit(more[j - d]) && hit(more[j - d + 1]);
    }
    if AdjacentHits(more, hit) {
      var j :| 0 <= j < |more| - 1 && hit(more[j]) && hit(more[j + 1]);
      assert hit(q[j + d]) && hit(q[j + d + 1]);
    }
  }

  lemma {:induction false} SameAfterHead<T>(x: T, s: seq<T>, t: seq<T>)
    ensures [x] + s == [x] + t <==> s == t
  {
    assert ([x] + s)[1..] == s && ([x] + t)[1..] == t;
  }

  /** All hit elements disappear if and only if no two of them are neighbours. */
  lemma {:induction false} SweepRemovesAllUnlessAdjacent<T>(q: seq<T>, hit: T -> bool)
    ensures Sweep(q, hit) == Without(q, hit) <==> !AdjacentHits(q, hit)
  {
    if q == [] {
    } else if !hit(q[0]) {
      SweepRemovesAllUnlessAdjacent(q[1..], hit);
      AdjacentLater(q, hit, 1);
      SameAfterHead(q[0], Sweep(q[1..], hit), Without(q[1..], hit));
    } else if |q| > 1 {
      if hit(q[1]) {
        assert AdjacentHits(q, hit);
        WithoutHasNoHits(q, hit);
        assert Sweep(q, hit)[0] == q[1];
      } else {
        SweepRemovesAllUnlessAdjacent(q[2..], hit);
        AdjacentLater(q, hit, 2);
        assert q[1..][1..] == q[2..] && q[1..][0] == q[1];
        assert Without(q, hit) == Without(q[1..], hit) == [q[1]] + Without(q[2..], hit);
        SameAfterHead(q[1], Sweep(q[2..], hit), Without(q[2..], hit));
      }
    }
  }
}
