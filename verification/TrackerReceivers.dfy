/**
 UnmarshalMsg as the generated code runs it: a loop that counts the announced entries down over a
 shrinking buffer and assigns the receiver's fields entry by entry. The two bucket lists are slices
 that are refilled in place while their capacity suffices, so what a receiver holds afterwards can
 depend on whether the slices share cells.
*/
module TrackerReceivers {
  import opened Common
  import opened MsgPack
  import opened TrackerCodec
  import opened BucketSlices

  // ---- What decoding does to a receiver

  datatype Window = Window(off: nat, len: nat, cap: nat)

  /** The two bucket lists: over different arrays, or windows of one array. */
  datatype RawLists =
    | Apart(queued: seq<Bytes>, healed: seq<Bytes>)
    | Shared(cells: seq<Bytes>, queuedAt: Window, healedAt: Window)

  predicate Inside(w: Window, cells: seq<Bytes>) { w.len <= w.cap && w.off + w.cap <= |cells| }

  type Lists = l: RawLists | l.Shared? ==> Inside(l.queuedAt, l.cells) && Inside(l.healedAt, l.cells)
    witness Apart([], [])

  function Seen(w: Window, cells: seq<Bytes>): seq<Bytes>
    requires Inside(w, cells)
  {
    cells[w.off..w.off + w.len]
  }

  function Queued(l: Lists): seq<Bytes> { if l.Apart? then l.queued else Seen(l.queuedAt, l.cells) }

  function Healed(l: Lists): seq<Bytes> { if l.Apart? then l.healed else Seen(l.healedAt, l.cells) }

  function FillQueued(l: Lists, q: seq<Bytes>): Lists {
    if l.Apart? then l.(queued := q)
    else if |q| <= l.queuedAt.cap then
      Shared(Overwrite(l.cells, l.queuedAt.off, q), l.queuedAt.(len := |q|), l.healedAt)
    else Apart(q, Healed(l))
  }

  function FillHealed(l: Lists, h: seq<Bytes>): Lists {
    if l.Apart? then l.(healed := h)
    else if |h| <= l.healedAt.cap then
      Shared(Overwrite(l.cells, l.healedAt.off, h), l.queuedAt, l.healedAt.(len := |h|))
    else Apart(Queued(l), h)
  }

  /** The fields of a receiver other than its two lists, and the lists. */
  datatype Image = Image(scalars: Assignments, lists: Lists)

  /** What the receiver's fields show. */
  function Contents(z: Image): Assignments {
    z.scalars[QueuedBuckets := Texts(Queued(z.lists))][HealedBuckets := Texts(Healed(z.lists))]
  }

  /** The primitive readers of the MessagePack library. */
  datatype Library = Library(
    mapHeader: Bytes -> Read<nat>,
    mapKey: Bytes -> Read<Bytes>,
    skip: Bytes -> Result<Bytes, Error>,
    scalar: (Kind, Bytes) -> Read<Value>,
    list: ListReader)

  type Step = (Image, Bytes) -> Result<(Image, Bytes), Error>

  /** One entry: the value goes into its field, or is skipped. */
  function Entry(lib: Library, z: Image, b: Bytes): Result<(Image, Bytes), Error> {
    match lib.mapKey(b)
    case Err(e) => Err(e)
    case Ok((name, rest)) => EntryBody(lib, z, KeyNamed(name), rest)
  }

  function EntryBody(lib: Library, z: Image, key: Option<Key>, b: Bytes): Result<(Image, Bytes), Error> {
    match key
    case None =>
      (match lib.skip(b)
       case Err(e) => Err(e)
       case Ok(rest) => Ok((z, rest)))
    case Some(k) =>
      if k == QueuedBuckets then
        match ListFrom(lib.list, b)
        case Err(e) => Err(e)
        case Ok((l, rest)) => Ok((z.(lists := FillQueued(z.lists, l)), rest))
      else if k == HealedBuckets then
        match ListFrom(lib.list, b)
        case Err(e) => Err(e)
        case Ok((l, rest)) => Ok((z.(lists := FillHealed(z.lists, l)), rest))
      else
        match lib.scalar(KindOf(k), b)
        case Err(e) => Err(e)
        case Ok((v, rest)) => Ok((z.(scalars := z.scalars[k := v]), rest))
  }

  function Entries(lib: Library): Step { (z, b) => Entry(lib, z, b) }

  /** UnmarshalMsg on a receiver with image `z`. */
  function UnmarshalInto(lib: Library, z: Image, b: Bytes): Result<(Image, Bytes), Error> {
    match lib.mapHeader(b)
    case Err(e) => Err(e)
    case Ok((n, rest)) => Loop(Entries(lib), z, n, rest)
  }

  // ---- The receiver object

  class TrackerReceiver {
    const lib: Library
    var scalars: Assignments
    var queued: Slice
    var healed: Slice

    ghost predicate Valid()
      reads this
    {
      queued.Valid() && healed.Valid()
    }

    ghost function Now(): Image
      requires Valid()
      reads this, queued.cells, healed.cells
    {
      var lists: Lists :=
        if queued.cells == healed.cells then
          Shared(queued.cells[..],
                 Window(queued.off, queued.len, queued.cap), Window(healed.off, healed.len, healed.cap))
        else Apart(queued.Contents(), healed.Contents());
      Image(scalars, lists)
    }

    constructor (lib: Library, scalars: Assignments, queued: Slice, healed: Slice)
      requires queued.Valid() && healed.Valid()
      ensures Valid() && this.lib == lib
      ensures this.scalars == scalars && this.queued == queued && this.healed == healed
    {
      this.lib, this.scalars, this.queued, this.healed := lib, scalars, queued, healed;
    }

    /** The case of the switch for one of the two lists. */
    method UnmarshalQueued(bts: Bytes) returns (r: Result<Bytes, Error>)
      requires Valid()
      modifies this`queued, queued.cells
      ensures Valid()
      ensures queued.cells == old(queued.cells) || fresh(queued.cells)
      ensures r.Err? ==> ListFrom(lib.list, bts) == Err(r.error)
      ensures r.Ok? ==> ListFrom(lib.list, bts).Ok? && ListFrom(lib.list, bts).value.1 == r.value
      ensures r.Ok? ==>
                Now() == old(Now()).(lists := FillQueued(old(Now()).lists, ListFrom(lib.list, bts).value.0))
    {
      queued, r := ReadBuckets(lib.list, queued, bts);
    }

    method UnmarshalHealed(bts: Bytes) returns (r: Result<Bytes, Error>)
      requires Valid()
      modifies this`healed, healed.cells
      ensures Valid()
      ensures healed.cells == old(healed.cells) || fresh(healed.cells)
      ensures r.Err? ==> ListFrom(lib.list, bts) == Err(r.error)
      ensures r.Ok? ==> ListFrom(lib.list, bts).Ok? && ListFrom(lib.list, bts).value.1 == r.value
      ensures r.Ok? ==>
                Now() == old(Now()).(lists := FillHealed(old(Now()).lists, ListFrom(lib.list, bts).value.0))
    {
      healed, r := ReadBuckets(lib.list, healed, bts);
    }

    /** One pass of the loop. Nothing is promised about the fields after an error. */
    method UnmarshalEntry(bts: Bytes) returns (r: Result<Bytes, Error>)
      requires Valid()
      modifies this, queued.cells, healed.cells
      ensures Valid()
      ensures queued.cells == old(queued.cells) || fresh(queued.cells)
      ensures healed.cells == old(healed.cells) || fresh(healed.cells)
      ensures r.Ok? ==> Entry(lib, old(Now()), bts) == Ok((Now(), r.value))
      ensures r.Err? ==> Entry(lib, old(Now()), bts) == Err(r.error)
    {
      var key := lib.mapKey(bts);
      if key.Err? {
        return Err(key.error);
      }
      var (name, b) := key.value;
      match KeyNamed(name) {
        case None =>
          r := lib.skip(b);
        case Some(k) =>
          if k == QueuedBuckets {
            r := UnmarshalQueued(b);
          } else if k == HealedBuckets {
            r := UnmarshalHealed(b);
          } else {
            var v := lib.scalar(KindOf(k), b);
            if v.Err? {
              return Err(v.error);
            }
            scalars := scalars[k := v.value.0];
            r := Ok(v.value.1);
          }
      }
    }

    /** The whole decoder, for every receiver and every input. */
    method UnmarshalMsg(bts: Bytes) returns (r: Result<Bytes, Error>)
      requires Valid()
      modifies this, queued.cells, healed.cells
      ensures Valid()
      ensures r.Ok? ==> UnmarshalInto(lib, old(Now()), bts) == Ok((Now(), r.value))
      ensures r.Err? ==> UnmarshalInto(lib, old(Now()), bts) == Err(r.error)
    {
      var header := lib.mapHeader(bts);
      if header.Err? {
        return Err(header.error);
      }
      var (left, b) := header.value;
      ghost var all := Loop(Entries(lib), Now(), left, b);
      while left > 0
        invariant left >= 0 && Valid() && all == Loop(Entries(lib), Now(), left, b)
        invariant queued.cells == old(queued.cells) || fresh(queued.cells)
        invariant healed.cells == old(healed.cells) || fresh(healed.cells)
        decreases left
      {
        left := left - 1;
        var entry := UnmarshalEntry(b);
        if entry.Err? {
          return Err(entry.error);
        }
        b := entry.value;
      }
      return Ok(b);
    }
  }

  // ---- Lists that share no cells

  /** [o, o+m) and [p, p+n) have a number in common. */
  predicate Meet(o: nat, m: nat, p: nat, n: nat) { m > 0 && n > 0 && o < p + n && p < o + m }

  /** No cell belongs to both lists, at full capacity. */
  predicate Disjoint(l: Lists) {
    l.Shared? ==> !Meet(l.queuedAt.off, l.queuedAt.cap, l.healedAt.off, l.healedAt.cap)
  }

  lemma {:induction false} FillDisjoint(l: Lists, x: seq<Bytes>)
    requires Disjoint(l)
    ensures var f := FillQueued(l, x); Disjoint(f) && Queued(f) == x && Healed(f) == Healed(l)
    ensures var f := FillHealed(l, x); Disjoint(f) && Healed(f) == x && Queued(f) == Queued(l)
  {
  }

  const LIBRARY := Library(ReadMapHeader, ReadMapKey, Skip, ReadValue, STRINGS)

  /** The value read for a key goes into its field of the contents. */
  function Assigned(t: Assignments, k: Key, r: Read<Value>): Result<(Assignments, Bytes), Error> {
    match r
    case Err(e) => Err(e)
    case Ok((v, rest)) => Ok((t[k := v], rest))
  }

  lemma {:induction false} ContentsAfterScalar(z: Image, k: Key, v: Value)
    requires k != QueuedBuckets && k != HealedBuckets
    ensures Contents(z.(scalars := z.scalars[k := v])) == Contents(z)[k := v]
  {
  }

  lemma {:induction false} ContentsAfterQueued(z: Image, l: seq<Bytes>)
    requires Disjoint(z.lists)
    ensures Contents(z.(lists := FillQueued(z.lists, l))) == Contents(z)[QueuedBuckets := Texts(l)]
  {
    FillDisjoint(z.lists, l);
  }

  lemma {:induction false} ContentsAfterHealed(z: Image, l: seq<Bytes>)
    requires Disjoint(z.lists)
    ensures Contents(z.(lists := FillHealed(z.lists, l))) == Contents(z)[HealedBuckets := Texts(l)]
  {
    FillDisjoint(z.lists, l);
  }

  /** Both fail alike, or leave the same contents and the same bytes. */
  ghost predicate Same(x: Result<(Image, Bytes), Error>, y: Result<(Assignments, Bytes), Error>) {
    match (x, y)
    case (Err(e), Err(f)) => e == f
    case (Ok((z, r)), Ok((t, s))) => Disjoint(z.lists) && Contents(z) == t && r == s
    case _ => false
  }

  lemma {:induction false} ListAssigned(z: Image, k: Key, b: Bytes)
    requires Disjoint(z.lists) && (k == QueuedBuckets || k == HealedBuckets)
    ensures Same(EntryBody(LIBRARY, z, Some(k), b), Assigned(Contents(z), k, ReadValue(ListKind, b)))
  {
    if ReadList(b).Ok? {
      var l := ReadList(b).value.0;
      FillDisjoint(z.lists, l);
      ContentsAfterQueued(z, l);
      ContentsAfterHealed(z, l);
    }
  }

  lemma {:induction false} ScalarAssigned(z: Image, k: Key, b: Bytes)
    requires Disjoint(z.lists) && k != QueuedBuckets && k != HealedBuckets
    ensures Same(EntryBody(LIBRARY, z, Some(k), b), Assigned(Contents(z), k, ReadValue(KindOf(k), b)))
  {
    var r := ReadValue(KindOf(k), b);
    if r.Ok? {
      ContentsAfterScalar(z, k, r.value.0);
    }
  }

  lemma {:induction false} BodyIsAssigned(t: Tracker, k: Key, name: Bytes, b: Bytes)
    requires KeyNamed(name) == Some(k)
    ensures DecodeBody(t, name, b) == Assigned(t, k, ReadValue(KindOf(k), b))
  {
  }

  lemma {:induction false} BodyAgrees(z: Image, t: Tracker, name: Bytes, b: Bytes)
    requires Disjoint(z.lists) && Contents(z) == t
    ensures Same(EntryBody(LIBRARY, z, KeyNamed(name), b), DecodeBody(t, name, b))
  {
    match KeyNamed(name) {
      case None =>
      case Some(k) =>
        BodyIsAssigned(t, k, name, b);
        if k == QueuedBuckets || k == HealedBuckets {
          ListAssigned(z, k, b);
        } else {
          ScalarAssigned(z, k, b);
        }
    }
  }

  lemma {:induction false} EntryAgrees(z: Image, t: Tracker, b: Bytes)
    requires Disjoint(z.lists) && Contents(z) == t
    ensures Same(Entry(LIBRARY, z, b), DecodePair(t, b))
  {
    var key := ReadMapKey(b);
    if key.Ok? {
      BodyAgrees(z, t, key.value.0, key.value.1);
    }
  }

  lemma {:induction false} LoopAgrees(
      step: Step, value: (Tracker, Bytes) -> Decoded, z: Image, t: Tracker, n: nat, b: Bytes)
    requires Disjoint(z.lists) && Contents(z) == t
    requires forall z: Image, t: Tracker, b :: Disjoint(z.lists) && Contents(z) == t ==> Same(step(z, b), value(t, b))
    ensures Same(Loop(step, z, n, b), Loop(value, t, n, b))
    decreases n
  {
    if n > 0 {
      assert Same(step(z, b), value(t, b));
      if step(z, b).Ok? {
        LoopAgrees(step, value, step(z, b).value.0, value(t, b).value.0, n - 1, step(z, b).value.1);
      }
    }
  }

  /**
   A receiver whose lists share no cells decodes every input as a value does: whatever capacity is
   reused, the contents, the bytes left and the errors are the same.
  */
  lemma {:induction false} DisjointReceiverDecodesAsValue(z: Image, t: Tracker, b: Bytes)
    requires Disjoint(z.lists) && Contents(z) == t
    ensures Same(UnmarshalInto(LIBRARY, z, b), Unmarshal(t, b))
  {
    forall z: Image, t: Tracker, b | Disjoint(z.lists) && Contents(z) == t
      ensures Same(Entries(LIBRARY)(z, b), DecodePair(t, b))
    {
      EntryAgrees(z, t, b);
    }
    var header := ReadMapHeader(b);
    if header.Ok? {
      LoopAgrees(Entries(LIBRARY), DecodePair, z, t, header.value.0, header.value.1);
    }
  }

  // ---- Lists that share cells

  /** Both lists fit into shared cells, and some cell would have to hold two different names. */
  ghost predicate Clash(l: Lists, q: seq<Bytes>, h: seq<Bytes>) {
    && l.Shared? && |q| <= l.queuedAt.cap && |h| <= l.healedAt.cap
    && Conflict(l.queuedAt.off, q, l.healedAt.off, h)
  }

  /** `seen` is `q` at offset qo after `h` has been written at offset ho. */
  ghost predicate Covered(seen: seq<Bytes>, qo: nat, q: seq<Bytes>, ho: nat, h: seq<Bytes>) {
    && |seen| == |q|
    && forall i :: 0 <= i < |q| ==> seen[i] == if ho <= qo + i < ho + |h| then h[qo + i - ho] else q[i]
  }

  ghost predicate Conflict(qo: nat, q: seq<Bytes>, ho: nat, h: seq<Bytes>) {
    exists i, j :: 0 <= i < |q| && 0 <= j < |h| && qo + i == ho + j && q[i] != h[j]
  }

  lemma {:induction false} CoveredUnlessConflict(seen: seq<Bytes>, qo: nat, q: seq<Bytes>, ho: nat, h: seq<Bytes>)
    requires Covered(seen, qo, q, ho, h)
    ensures seen == q <==> !Conflict(qo, q, ho, h)
  {
    if seen != q {
      var i :| 0 <= i < |q| && seen[i] != q[i];
      assert q[i] != h[qo + i - ho];
    }
  }

  /** Filling both lists in the order of the encoding loses queued names exactly by a clash. */
  lemma {:induction false} FillBoth(l: Lists, q: seq<Bytes>, h: seq<Bytes>)
    ensures var f := FillHealed(FillQueued(l, q), h);
            Healed(f) == h && (Queued(f) == q <==> !Clash(l, q, h))
  {
    if l.Shared? && |q| <= l.queuedAt.cap && |h| <= l.healedAt.cap {
      var seen := Queued(FillHealed(FillQueued(l, q), h));
      forall i | 0 <= i < |q| {
        SeenAfterBoth(l, q, h, i);
      }
      CoveredUnlessConflict(seen, l.queuedAt.off, q, l.healedAt.off, h);
    }
  }

  lemma {:induction false} SeenAfterBoth(l: Lists, q: seq<Bytes>, h: seq<Bytes>, i: nat)
    requires l.Shared? && |q| <= l.queuedAt.cap && |h| <= l.healedAt.cap && i < |q|
    ensures var qo, ho, f := l.queuedAt.off, l.healedAt.off, FillHealed(FillQueued(l, q), h);
            |Queued(f)| == |q| && Queued(f)[i] == if ho <= qo + i < ho + |h| then h[qo + i - ho] else q[i]
  {
    var qo, ho := l.queuedAt.off, l.healedAt.off;
    var once := Overwrite(l.cells, qo, q);
    var twice := Overwrite(once, ho, h);
    assert once[qo..qo + |q|][i] == once[qo + i];
    if ho <= qo + i < ho + |h| {
      assert twice[ho..ho + |h|][qo + i - ho] == twice[qo + i];
    }
  }

  /** A clash over the same cells: the queued list shows the healed names. */
  lemma {:induction false} SharedCellsShowHealedNames(cells: seq<Bytes>, w: Window, q: seq<Bytes>, h: seq<Bytes>)
    requires Inside(w, cells) && |q| <= |h| <= w.cap
    ensures Queued(FillHealed(FillQueued(Shared(cells, w, w), q), h)) == h[..|q|]
  {
    var seen := Queued(FillHealed(FillQueued(Shared(cells, w, w), q), h));
    forall i | 0 <= i < |q| ensures |seen| == |q| && seen[i] == h[i] {
      SeenAfterBoth(Shared(cells, w, w), q, h, i);
    }
  }

  // ---- The round trip into a receiver

  function TakePair(z: Image, p: Pair): Image {
    match p
    case Unknown(_, _) => z
    case Known(k, v) =>
      if k == QueuedBuckets && v.Texts? then z.(lists := FillQueued(z.lists, v.texts))
      else if k == HealedBuckets && v.Texts? then z.(lists := FillHealed(z.lists, v.texts))
      else z.(scalars := z.scalars[k := v])
  }

  function TakeAll(z: Image, ps: seq<Pair>): Image
    decreases ps
  {
    if ps == [] then z else TakeAll(TakePair(z, ps[0]), ps[1..])
  }

  lemma {:induction false} ListReadBack(z: Image, k: Key, l: seq<Bytes>, r: Bytes)
    requires (k == QueuedBuckets || k == HealedBuckets) && Fits(Texts(l))
    ensures EntryBody(LIBRARY, z, Some(k), WriteValue(Texts(l)) + r) == Ok((TakePair(z, Known(k, Texts(l))), r))
  {
    ReadWriteList(l, r);
  }

  lemma {:induction false} ScalarReadBack(z: Image, k: Key, v: Value, r: Bytes)
    requires k != QueuedBuckets && k != HealedBuckets && HasKind(v, KindOf(k)) && Fits(v)
    ensures EntryBody(LIBRARY, z, Some(k), WriteValue(v) + r) == Ok((TakePair(z, Known(k, v)), r))
  {
    ReadWriteValue(v, KindOf(k), r);
  }

  lemma {:induction false} BodyReadBack(z: Image, p: Pair, r: Bytes)
    requires ValidPair(p)
    ensures EntryBody(LIBRARY, z, KeyNamed(PairName(p)), PairBody(p) + r) == Ok((TakePair(z, p), r))
  {
    match p {
      case Unknown(name, tree) => SkipWritten(tree, r);
      case Known(k, v) =>
        NamedByItself(k);
        if k == QueuedBuckets || k == HealedBuckets {
          ListReadBack(z, k, v.texts, r);
        } else {
          ScalarReadBack(z, k, v, r);
        }
    }
  }

  lemma {:induction false} EntryAfterKey(z: Image, b: Bytes, name: Bytes, rest: Bytes)
    requires ReadMapKey(b) == Ok((name, rest))
    ensures Entry(LIBRARY, z, b) == EntryBody(LIBRARY, z, KeyNamed(name), rest)
  {
  }

  lemma {:induction false} EntryReadBack(z: Image, p: Pair, r: Bytes)
    requires ValidPair(p)
    ensures Entry(LIBRARY, z, WritePair(p) + r) == Ok((TakePair(z, p), r))
  {
    var name, body := PairName(p), PairBody(p);
    Associate(WriteString(name), body, r);
    NameFits(p);
    ReadWriteString(name, body + r);
    EntryAfterKey(z, WriteString(name) + (body + r), name, body + r);
    BodyReadBack(z, p, r);
  }

  lemma {:induction false} LoopReadBack(step: Step, write: Pair -> Bytes, z: Image, ps: seq<Pair>, r: Bytes)
    requires forall i, z, r :: 0 <= i < |ps| ==> step(z, write(ps[i]) + r) == Ok((TakePair(z, ps[i]), r))
    ensures Loop(step, z, |ps|, Concat(write, ps) + r) == Ok((TakeAll(z, ps), r))
    decreases ps
  {
    if ps == [] {
      assert Concat(write, ps) + r == r;
    } else {
      var more := ps[1..];
      Associate(write(ps[0]), Concat(write, more), r);
      forall i, z, r | 0 <= i < |more| ensures step(z, write(more[i]) + r) == Ok((TakePair(z, more[i]), r)) {
        assert more[i] == ps[i + 1];
      }
      LoopReadBack(step, write, TakePair(z, ps[0]), more, r);
    }
  }

  lemma {:induction false} MarshalledIntoReceiver(z: Image, t: Tracker, r: Bytes)
    requires FitsTracker(t)
    ensures UnmarshalInto(LIBRARY, z, Marshal(t) + r) == Ok((TakeAll(z, Fields(t)), r))
  {
    var ps := Fields(t);
    var body := WritePairs(ps);
    HeaderForTwenty();
    Associate([0xde, 0x0, 0x14], body, r);
    ReadMapHeaderOf(20, body + r);
    forall i, z, r | 0 <= i < |ps| ensures Entries(LIBRARY)(z, WritePair(ps[i]) + r) == Ok((TakePair(z, ps[i]), r)) {
      assert Fits(t[KEYS[i]]);
      EntryReadBack(z, ps[i], r);
    }
    LoopReadBack(Entries(LIBRARY), WritePair, z, ps, r);
  }

  /** The position of the first of the two lists in the encoding. */
  const LISTS := 18

  lemma {:induction false} ListsComeLast(i: nat)
    requires i < |KEYS|
    ensures KEYS[i] == QueuedBuckets <==> i == LISTS
    ensures KEYS[i] == HealedBuckets <==> i == LISTS + 1
  {
  }

  lemma {:induction false} FieldsFrom(t: Tracker, i: nat)
    requires i < |KEYS|
    ensures Fields(t)[i..] == [Known(KEYS[i], t[KEYS[i]])] + Fields(t)[i + 1..]
  {
  }

  lemma {:induction false} TakeFrom(z: Image, t: Tracker, i: nat)
    requires i < |KEYS|
    ensures TakeAll(z, Fields(t)[i..]) == TakeAll(TakePair(z, Known(KEYS[i], t[KEYS[i]])), Fields(t)[i + 1..])
  {
    FieldsFrom(t, i);
  }

  lemma {:induction false} ListsTaken(z: Image, t: Tracker, i: nat, q: seq<Bytes>, h: seq<Bytes>)
    requires i <= LISTS && t[QueuedBuckets] == Texts(q) && t[HealedBuckets] == Texts(h)
    ensures TakeAll(z, Fields(t)[i..]).lists == FillHealed(FillQueued(z.lists, q), h)
    decreases LISTS - i
  {
    TakeFrom(z, t, i);
    ListsComeLast(i);
    var z' := TakePair(z, Known(KEYS[i], t[KEYS[i]]));
    if i < LISTS {
      ListsTaken(z', t, i + 1, q, h);
    } else {
      TakeFrom(z', t, i + 1);
      ListsComeLast(i + 1);
      assert Fields(t)[i + 2..] == [];
    }
  }

  predicate Has(z: Image, t: Tracker, k: Key) { k in z.scalars && z.scalars[k] == t[k] }

  lemma {:induction false} ScalarTaken(z: Image, t: Tracker, i: nat, j: nat)
    requires i <= |KEYS| && j < |KEYS| && j != LISTS && j != LISTS + 1
    requires i <= j || Has(z, t, KEYS[j])
    ensures Has(TakeAll(z, Fields(t)[i..]), t, KEYS[j])
    decreases |KEYS| - i
  {
    if i < |KEYS| {
      ListsComeLast(j);
      TakeFrom(z, t, i);
      ScalarTaken(TakePair(z, Known(KEYS[i], t[KEYS[i]])), t, i + 1, j);
    }
  }

  lemma {:induction false} ContentsFromParts(z: Image, t: Tracker, q: seq<Bytes>, h: seq<Bytes>)
    requires t[QueuedBuckets] == Texts(q) && t[HealedBuckets] == Texts(h)
    requires forall k :: k != QueuedBuckets && k != HealedBuckets ==> Has(z, t, k)
    ensures Contents(z) == t <==> Queued(z.lists) == q && Healed(z.lists) == h
  {
    var c := Contents(z);
    assert c[QueuedBuckets] == Texts(Queued(z.lists)) && c[HealedBuckets] == Texts(Healed(z.lists));
    if Queued(z.lists) == q && Healed(z.lists) == h {
      forall k: Key ensures k in c && c[k] == t[k] {
        if k != QueuedBuckets && k != HealedBuckets {
          assert Has(z, t, k);
        }
      }
      assert c == t;
    }
  }

  /** Decoding the encoding of `t` leaves exactly `t` in the receiver, and the bytes behind it. */
  ghost predicate RestoredInto(z: Image, t: Tracker, r: Bytes) {
    var d := UnmarshalInto(LIBRARY, z, Marshal(t) + r);
    d.Ok? && Contents(d.value.0) == t && d.value.1 == r
  }

  lemma {:induction false} ScalarsTaken(z: Image, t: Tracker)
    ensures forall k :: k != QueuedBuckets && k != HealedBuckets ==> Has(TakeAll(z, Fields(t)), t, k)
  {
    var ps := Fields(t);
    assert ps[0..] == ps;
    forall k | k != QueuedBuckets && k != HealedBuckets ensures Has(TakeAll(z, ps), t, k) {
      var j := IndexOf(k);
      ListsComeLast(j);
      ScalarTaken(z, t, 0, j);
    }
  }

  lemma {:induction false} TakenUnlessClash(z: Image, t: Tracker, q: seq<Bytes>, h: seq<Bytes>)
    requires t[QueuedBuckets] == Texts(q) && t[HealedBuckets] == Texts(h)
    ensures Contents(TakeAll(z, Fields(t))) == t <==> !Clash(z.lists, q, h)
  {
    var end := TakeAll(z, Fields(t));
    assert Fields(t)[0..] == Fields(t);
    ListsTaken(z, t, 0, q, h);
    FillBoth(z.lists, q, h);
    ScalarsTaken(z, t);
    ContentsFromParts(end, t, q, h);
  }

  /**
   The round trip into an object, whatever its fields and lists held and however its slices are
   laid out: it succeeds if and only if the two decoded lists do not clash in shared cells.
  */
  lemma {:induction false} RestoredUnlessClash(z: Image, t: Tracker, r: Bytes, q: seq<Bytes>, h: seq<Bytes>)
    requires FitsTracker(t) && t[QueuedBuckets] == Texts(q) && t[HealedBuckets] == Texts(h)
    ensures RestoredInto(z, t, r) <==> !Clash(z.lists, q, h)
  {
    MarshalledIntoReceiver(z, t, r);
    TakenUnlessClash(z, t, q, h);
  }

  /** The cells that a list of any decodable length can reach. */
  function Reach(w: Window): nat { if w.cap < MAX_UINT32 then w.cap else MAX_UINT32 - 1 }

  /** Some cell can be reached through both lists. */
  predicate Overlap(l: Lists) {
    l.Shared? && Meet(l.queuedAt.off, Reach(l.queuedAt), l.healedAt.off, Reach(l.healedAt))
  }

  ghost predicate RestoresEveryTracker(z: Image) {
    forall t: Tracker, r :: FitsTracker(t) ==> RestoredInto(z, t, r)
  }

  function Copies(x: Bytes, n: nat): seq<Bytes> { seq(n, _ => x) }

  function ListFields(q: seq<Bytes>, h: seq<Bytes>): (f: Assignments)
    ensures WellKinded(f)
  {
    map[QueuedBuckets := Texts(q), HealedBuckets := Texts(h)]
  }

  lemma {:induction false} TrackerWithLists(q: seq<Bytes>, h: seq<Bytes>) returns (t: Tracker)
    requires Fits(Texts(q)) && Fits(Texts(h))
    ensures FitsTracker(t) && t[QueuedBuckets] == Texts(q) && t[HealedBuckets] == Texts(h)
  {
    ZeroTrackerFits();
    t := SetAll(ZeroTracker(), ListFields(q, h));
  }

  lemma {:induction false} OverlapClashes(l: Lists) returns (q: seq<Bytes>, h: seq<Bytes>)
    requires Overlap(l)
    ensures Clash(l, q, h) && Fits(Texts(q)) && Fits(Texts(h))
  {
    var qo, ho := l.queuedAt.off, l.healedAt.off;
    var p := if qo < ho then ho else qo;
    q, h := Copies([0], p - qo + 1), Copies([], p - ho + 1);
    assert q[p - qo] != h[p - ho];
  }

  lemma {:induction false} ApartNeverClash(l: Lists, q: seq<Bytes>, h: seq<Bytes>)
    requires !Overlap(l) && |q| < MAX_UINT32 && |h| < MAX_UINT32
    ensures !Clash(l, q, h)
  {
  }

  lemma {:induction false} RestoredWhenApart(z: Image, t: Tracker, r: Bytes)
    requires !Overlap(z.lists) && FitsTracker(t)
    ensures RestoredInto(z, t, r)
  {
    ListKinds();
    var q := ListAt(t, QueuedBuckets);
    var h := ListAt(t, HealedBuckets);
    ApartNeverClash(z.lists, q, h);
    RestoredUnlessClash(z, t, r, q, h);
  }

  lemma {:induction false} ListKinds()
    ensures KindOf(QueuedBuckets) == ListKind && KindOf(HealedBuckets) == ListKind
  {
  }

  lemma {:induction false} ListAt(t: Tracker, k: Key) returns (l: seq<Bytes>)
    requires FitsTracker(t) && KindOf(k) == ListKind
    ensures t[k] == Texts(l) && |l| < MAX_UINT32
  {
    l := t[k].texts;
    assert Fits(t[k]);
  }

  /** A receiver restores every tracker if and only if its two slices can reach no common cell. */
  lemma {:induction false} RestoresAllUnlessOverlap(z: Image)
    ensures RestoresEveryTracker(z) <==> !Overlap(z.lists)
  {
    if Overlap(z.lists) {
      var q, h := OverlapClashes(z.lists);
      var t := TrackerWithLists(q, h);
      RestoredUnlessClash(z, t, [], q, h);
      assert !RestoredInto(z, t, []);
    } else {
      forall t: Tracker, r | FitsTracker(t) ensures RestoredInto(z, t, r) {
        RestoredWhenApart(z, t, r);
      }
    }
  }

  // ---- The encoder

  /** MarshalMsg: the header, then every name and value, the lists through their own loops. */
  method MarshalMsg(t: Tracker, b: Bytes) returns (o: Bytes)
    ensures o == b + Marshal(t)
  {
    o := b + [0xde, 0x0, 0x14];
    ghost var start := o;
    var i := 0;
    while i < |KEYS|
      invariant i <= |KEYS|
      invariant start + WritePairs(Fields(t)) == o + WritePairs(Fields(t)[i..])
    {
      ghost var p := Known(KEYS[i], t[KEYS[i]]);
      ghost var before := o;
      FieldsFrom(t, i);
      o := AppendField(o, KEYS[i], t[KEYS[i]]);
      Associate(before, WritePair(p), WritePairs(Fields(t)[i + 1..]));
      i := i + 1;
    }
    Associate(b, [0xde, 0x0, 0x14], WritePairs(Fields(t)));
    assert o + [] == o;
  }

  method AppendField(o: Bytes, k: Key, v: Value) returns (o': Bytes)
    ensures o' == o + WritePair(Known(k, v))
  {
    var named := o + WriteString(Name(k));
    Associate(o, WriteString(Name(k)), WriteValue(v));
    if v.Texts? {
      o' := AppendBuckets(named, v.texts);
    } else {
      o' := named + WriteValue(v);
    }
  }

  /** Encoding a tracker and decoding it into an object: the bytes behind it are left in every case. */
  method RoundTrip(z: TrackerReceiver, t: Tracker, trailing: Bytes, ghost q: seq<Bytes>, ghost h: seq<Bytes>)
      returns (left: Bytes)
    requires z.Valid() && z.lib == LIBRARY
    requires FitsTracker(t) && t[QueuedBuckets] == Texts(q) && t[HealedBuckets] == Texts(h)
    modifies z, z.queued.cells, z.healed.cells
    ensures z.Valid() && left == trailing
    ensures Contents(z.Now()) == t <==> !Clash(old(z.Now()).lists, q, h)
  {
    ghost var was := z.Now();
    var b := MarshalMsg(t, []);
    assert [] + Marshal(t) == Marshal(t);
    var r := z.UnmarshalMsg(b + trailing);
    MarshalledIntoReceiver(was, t, trailing);
    TakenUnlessClash(was, t, q, h);
    left := if r.Ok? then r.value else [];
  }
}
