/**
 The MessagePack codec generated for the persistent healing tracker: a map of twenty entries,
 written in a fixed order and read in any order.
*/
module TrackerCodec {
  import opened Common
  import opened MsgPack

  datatype Key =
    ID | PoolIndex | SetIndex | DiskIndex | Path | Endpoint | Started | LastUpdate | ObjectsHealed | ObjectsFailed |
    BytesDone | BytesFailed | Bucket | Object | ResumeObjectsHealed | ResumeObjectsFailed | ResumeBytesDone |
    ResumeBytesFailed | QueuedBuckets | HealedBuckets

  /** The order in which the fields are written. */
  const KEYS: seq<Key> := [
    ID, PoolIndex, SetIndex, DiskIndex, Path, Endpoint, Started, LastUpdate, ObjectsHealed, ObjectsFailed,
    BytesDone, BytesFailed, Bucket, Object, ResumeObjectsHealed, ResumeObjectsFailed, ResumeBytesDone,
    ResumeBytesFailed, QueuedBuckets, HealedBuckets
  ]

  datatype Kind = StringKind | IntKind | UintKind | TimeKind | ListKind

  datatype Value =
    | Text(text: Bytes)
    | Int(int64: Int64)
    | Uint(uint64: Uint64)
    | Stamp(stamp: Time)
    | Texts(texts: seq<Bytes>)

  function KindOf(k: Key): Kind {
    match k
    case ID => StringKind
    case PoolIndex => IntKind
    case SetIndex => IntKind
    case DiskIndex => IntKind
    case Path => StringKind
    case Endpoint => StringKind
    case Started => TimeKind
    case LastUpdate => TimeKind
    case ObjectsHealed => UintKind
    case ObjectsFailed => UintKind
    case BytesDone => UintKind
    case BytesFailed => UintKind
    case Bucket => StringKind
    case Object => StringKind
    case ResumeObjectsHealed => UintKind
    case ResumeObjectsFailed => UintKind
    case ResumeBytesDone => UintKind
    case ResumeBytesFailed => UintKind
    case QueuedBuckets => ListKind
    case HealedBuckets => ListKind
  }

  predicate HasKind(v: Value, kind: Kind) {
    match kind
    case StringKind => v.Text?
    case IntKind => v.Int?
    case UintKind => v.Uint?
    case TimeKind => v.Stamp?
    case ListKind => v.Texts?
  }

  function FieldName(k: Key): string {
    match k
    case ID => "ID"
    case PoolIndex => "PoolIndex"
    case SetIndex => "SetIndex"
    case DiskIndex => "DiskIndex"
    case Path => "Path"
    case Endpoint => "Endpoint"
    case Started => "Started"
    case LastUpdate => "LastUpdate"
    case ObjectsHealed => "ObjectsHealed"
    case ObjectsFailed => "ObjectsFailed"
    case BytesDone => "BytesDone"
    case BytesFailed => "BytesFailed"
    case Bucket => "Bucket"
    case Object => "Object"
    case ResumeObjectsHealed => "ResumeObjectsHealed"
    case ResumeObjectsFailed => "ResumeObjectsFailed"
    case ResumeBytesDone => "ResumeBytesDone"
    case ResumeBytesFailed => "ResumeBytesFailed"
    case QueuedBuckets => "QueuedBuckets"
    case HealedBuckets => "HealedBuckets"
  }

  function Zero(kind: Kind): Value {
    match kind
    case StringKind => Text([])
    case IntKind => Int(0)
    case UintKind => Uint(0)
    case TimeKind => Stamp([0, 0, 0, 0, 0, 0, 0, 0, 0, 0, 0, 0])
    case ListKind => Texts([])
  }

  /** The persisted contents of a tracker: a value of the right kind for every field. */
  type Tracker = t: map<Key, Value> | forall k :: k in t && HasKind(t[k], KindOf(k))
    witness map k: Key | true :: Zero(KindOf(k))

  /** Values for some of the fields. */
  type Assignments = map<Key, Value>

  ghost predicate WellKinded(f: Assignments) { forall k :: k in f ==> HasKind(f[k], KindOf(k)) }

  function SetAll(t: Tracker, f: Assignments): Tracker
    requires WellKinded(f)
  {
    t + f
  }

  // ---- Field names

  /** Field names are ASCII: one byte for each character. */
  function Ascii(s: string): Bytes {
    seq(|s|, i requires 0 <= i < |s| => s[i] as int % 256)
  }

  function Name(k: Key): Bytes { Ascii(FieldName(k)) }

  /** The length, the first byte and one more byte tell all names apart. */
  function Hallmark(name: Bytes): (nat, nat, nat)
    requires |name| >= 2
  {
    (|name|, name[0], name[if |name| == 13 then 7 else if |name| == 19 then 13 else 0])
  }

  function HallmarkOf(k: Key): (nat, nat, nat) {
    match k
    case ID => (2, 73, 73)
    case PoolIndex => (9, 80, 80)
    case SetIndex => (8, 83, 83)
    case DiskIndex => (9, 68, 68)
    case Path => (4, 80, 80)
    case Endpoint => (8, 69, 69)
    case Started => (7, 83, 83)
    case LastUpdate => (10, 76, 76)
    case ObjectsHealed => (13, 79, 72)
    case ObjectsFailed => (13, 79, 70)
    case BytesDone => (9, 66, 66)
    case BytesFailed => (11, 66, 66)
    case Bucket => (6, 66, 66)
    case Object => (6, 79, 79)
    case ResumeObjectsHealed => (19, 82, 72)
    case ResumeObjectsFailed => (19, 82, 70)
    case ResumeBytesDone => (15, 82, 82)
    case ResumeBytesFailed => (17, 82, 82)
    case QueuedBuckets => (13, 81, 117)
    case HealedBuckets => (13, 72, 117)
  }

  lemma {:induction false} NameHasHallmark(k: Key)
    ensures |Name(k)| >= 2 && Hallmark(Name(k)) == HallmarkOf(k)
  {
  }

  lemma {:induction false} HallmarksDiffer(j: Key, k: Key)
    requires HallmarkOf(j) == HallmarkOf(k)
    ensures j == k
  {
  }

  lemma {:induction false} NamesAreUnique()
    ensures forall j, k :: Name(j) == Name(k) ==> j == k
  {
    forall j, k | Name(j) == Name(k) ensures j == k {
      NameHasHallmark(j);
      NameHasHallmark(k);
      HallmarksDiffer(j, k);
    }
  }

  /** The switch over the key read from the input. */
  function KeyNamed(name: Bytes): Option<Key> {
    if exists k: Key :: Name(k) == name then
      NamesAreUnique();
      var k: Key :| Name(k) == name;
      Some(k)
    else None
  }

  lemma {:induction false} NamedByItself(k: Key)
    ensures KeyNamed(Name(k)) == Some(k)
  {
    NamesAreUnique();
  }

  lemma {:induction false} NamesAreShort(k: Key)
    ensures 2 <= |Name(k)| <= 19
  {
  }

  /** The names in the encoding and in the decoder's switch. */
  lemma {:induction false} NamesAreSpelled()
    ensures FieldName(ID) == "ID" && FieldName(PoolIndex) == "PoolIndex" && FieldName(SetIndex) == "SetIndex"
    ensures FieldName(DiskIndex) == "DiskIndex" && FieldName(Path) == "Path" && FieldName(Endpoint) == "Endpoint"
    ensures FieldName(Started) == "Started"
    ensures FieldName(LastUpdate) == "LastUpdate"
    ensures FieldName(ObjectsHealed) == "ObjectsHealed"
    ensures FieldName(ObjectsFailed) == "ObjectsFailed"
    ensures FieldName(BytesDone) == "BytesDone"
    ensures FieldName(BytesFailed) == "BytesFailed"
    ensures FieldName(Bucket) == "Bucket"
    ensures FieldName(Key.Object) == "Object"
    ensures FieldName(ResumeObjectsHealed) == "ResumeObjectsHealed"
    ensures FieldName(ResumeObjectsFailed) == "ResumeObjectsFailed"
    ensures FieldName(ResumeBytesDone) == "ResumeBytesDone"
    ensures FieldName(ResumeBytesFailed) == "ResumeBytesFailed"
    ensures FieldName(QueuedBuckets) == "QueuedBuckets" && FieldName(HealedBuckets) == "HealedBuckets"
  {
  }

  // ---- Values

  function WriteValue(v: Value): Bytes {
    match v
    case Text(s) => WriteString(s)
    case Int(i) => WriteInt(i)
    case Uint(u) => WriteUint(u)
    case Stamp(t) => WriteTime(t)
    case Texts(l) => ArrayHeader(Uint32(|l|)) + WriteStrings(l)
  }

  const STRINGS := ListReader(ReadArrayHeader, ReadString)

  function ReadList(b: Bytes): Read<seq<Bytes>> { ListFrom(STRINGS, b) }

  function Map<S, T>(r: Read<S>, f: S -> T): Read<T> {
    match r
    case Err(e) => Err(e)
    case Ok((x, rest)) => Ok((f(x), rest))
  }

  function ReadValue(kind: Kind, b: Bytes): (r: Read<Value>)
    ensures r.Ok? ==> HasKind(r.value.0, kind)
  {
    match kind
    case StringKind => Map(ReadString(b), s => Text(s))
    case IntKind => Map(ReadInt(b), i => Int(i))
    case UintKind => Map(ReadUint(b), u => Uint(u))
    case TimeKind => Map(ReadTime(b), t => Stamp(t))
    case ListKind => Map(ReadList(b), l => Texts(l))
  }

  /** Lengths that fit the 32-bit length fields of the format. */
  predicate Fits(v: Value) {
    match v
    case Text(s) => |s| < MAX_UINT32
    case Texts(l) => |l| < MAX_UINT32 && forall i :: 0 <= i < |l| ==> |l[i]| < MAX_UINT32
    case _ => true
  }

  lemma {:induction false} ReadListStep(b: Bytes, n: nat, rest: Bytes, l: seq<Bytes>, r: Bytes)
    requires ReadArrayHeader(b) == Ok((n, rest)) && ReadStrings(rest, n) == Ok((l, r))
    ensures ReadList(b) == Ok((l, r))
  {
  }

  lemma {:induction false} ReadWriteList(l: seq<Bytes>, r: Bytes)
    requires Fits(Texts(l))
    ensures ReadList(WriteValue(Texts(l)) + r) == Ok((l, r))
  {
    var head, body := ArrayHeader(|l|), WriteStrings(l);
    Associate(head, body, r);
    ReadArrayHeaderOf(|l|, body + r);
    ReadWriteStrings(l, r);
    ReadListStep(head + (body + r), |l|, body + r, l, r);
  }

  lemma {:induction false} ReadWriteValue(v: Value, kind: Kind, r: Bytes)
    requires HasKind(v, kind) && Fits(v)
    ensures ReadValue(kind, WriteValue(v) + r) == Ok((v, r))
  {
    match v {
      case Text(s) => ReadWriteString(s, r);
      case Int(i) => ReadWriteInt(i, r);
      case Uint(u) => ReadWriteUint(u, r);
      case Stamp(t) => ReadWriteTime(t, r);
      case Texts(l) => ReadWriteList(l, r);
    }
  }

  // ---- The map of fields

  /** One entry of an encoded map: a field of the tracker, or anything under another name. */
  datatype Pair = Known(key: Key, value: Value) | Unknown(name: Bytes, tree: Tree)

  ghost predicate ValidPair(p: Pair) {
    match p
    case Known(k, v) => HasKind(v, KindOf(k)) && Fits(v)
    case Unknown(name, tree) => |name| < MAX_UINT32 && KeyNamed(name) == None && WellFormed(tree)
  }

  function PairName(p: Pair): Bytes {
    match p
    case Known(k, _) => Name(k)
    case Unknown(name, _) => name
  }

  function PairBody(p: Pair): Bytes {
    match p
    case Known(_, v) => WriteValue(v)
    case Unknown(_, tree) => WriteTree(tree)
  }

  function WritePair(p: Pair): Bytes { WriteString(PairName(p)) + PairBody(p) }

  function Concat(write: Pair -> Bytes, ps: seq<Pair>): Bytes {
    if ps == [] then [] else write(ps[0]) + Concat(write, ps[1..])
  }

  function WritePairs(ps: seq<Pair>): Bytes { Concat(WritePair, ps) }

  type Decoded = Result<(Tracker, Bytes), Error>

  /** The value read for a key goes into its field; an unknown key's value is skipped. */
  function DecodeBody(t: Tracker, name: Bytes, b: Bytes): Decoded {
    match KeyNamed(name)
    case None =>
      (match Skip(b)
       case Err(e) => Err(e)
       case Ok(rest) => Ok((t, rest)))
    case Some(k) =>
      match ReadValue(KindOf(k), b)
      case Err(e) => Err(e)
      case Ok((v, rest)) => Ok((t[k := v], rest))
  }

  function DecodePair(t: Tracker, b: Bytes): Decoded {
    match ReadMapKey(b)
    case Err(e) => Err(e)
    case Ok((name, rest)) => DecodeBody(t, name, rest)
  }

  /** A loop that reads `n` entries, each with `step`, until one fails. */
  function Loop<T, E>(step: (T, Bytes) -> Result<(T, Bytes), E>, t: T, n: nat, b: Bytes): Result<(T, Bytes), E>
    decreases n
  {
    if n == 0 then Ok((t, b))
    else match step(t, b)
      case Err(e) => Err(e)
      case Ok((t', rest)) => Loop(step, t', n - 1, rest)
  }

  function DecodePairs(t: Tracker, n: nat, b: Bytes): Decoded { Loop(DecodePair, t, n, b) }

  /** UnmarshalMsg on a receiver that holds `t`. */
  function Unmarshal(t: Tracker, b: Bytes): Decoded {
    match ReadMapHeader(b)
    case Err(e) => Err(e)
    case Ok((n, rest)) => DecodePairs(t, n, rest)
  }

  function Fields(t: Tracker): (ps: seq<Pair>)
    ensures |ps| == |KEYS|
    ensures forall i :: 0 <= i < |ps| ==> ps[i] == Known(KEYS[i], t[KEYS[i]])
  {
    seq(|KEYS|, i requires 0 <= i < |KEYS| => Known(KEYS[i], t[KEYS[i]]))
  }

  /** MarshalMsg: a map header for twenty entries, then the fields in their order. */
  function Marshal(t: Tracker): Bytes { [0xde, 0x0, 0x14] + WritePairs(Fields(t)) }

  // ---- Reading what was written, in any order

  function Apply(t: Tracker, p: Pair): Tracker
    requires WellTyped(p)
  {
    match p
    case Known(k, v) => t[k := v]
    case Unknown(_, _) => t
  }

  ghost predicate AllValid(ps: seq<Pair>) {
    forall i :: 0 <= i < |ps| ==> ValidPair(ps[i])
  }

  predicate WellTyped(p: Pair) { p.Known? ==> HasKind(p.value, KindOf(p.key)) }

  ghost predicate AllWellTyped(ps: seq<Pair>) {
    forall i :: 0 <= i < |ps| ==> WellTyped(ps[i])
  }

  ghost function ApplyAll(t: Tracker, ps: seq<Pair>): Tracker
    requires AllWellTyped(ps)
    decreases ps
  {
    if ps == [] then t else ApplyAll(Apply(t, ps[0]), ps[1..])
  }

  lemma {:induction false} ValidIsWellTyped(ps: seq<Pair>)
    requires AllValid(ps)
    ensures AllWellTyped(ps)
  {
    forall i | 0 <= i < |ps| ensures WellTyped(ps[i]) {
      assert ValidPair(ps[i]);
    }
  }

  lemma {:induction false} DecodeWrittenBody(t: Tracker, p: Pair, r: Bytes)
    requires ValidPair(p)
    ensures DecodeBody(t, PairName(p), PairBody(p) + r) == Ok((Apply(t, p), r))
  {
    match p {
      case Known(k, v) =>
        NamedByItself(k);
        ReadWriteValue(v, KindOf(k), r);
      case Unknown(name, tree) =>
        SkipWritten(tree, r);
    }
  }

  lemma {:induction false} NameFits(p: Pair)
    requires ValidPair(p)
    ensures |PairName(p)| < MAX_UINT32
  {
    if p.Known? {
      NamesAreShort(p.key);
    }
  }

  lemma {:induction false} DecodePairStep(t: Tracker, b: Bytes, name: Bytes, rest: Bytes)
    requires ReadMapKey(b) == Ok((name, rest))
    ensures DecodePair(t, b) == DecodeBody(t, name, rest)
  {
  }

  lemma {:induction false} DecodeWrittenPair(t: Tracker, p: Pair, r: Bytes)
    requires ValidPair(p)
    ensures DecodePair(t, WritePair(p) + r) == Ok((Apply(t, p), r))
  {
    var name, body := PairName(p), PairBody(p);
    Associate(WriteString(name), body, r);
    NameFits(p);
    ReadWriteString(name, body + r);
    DecodePairStep(t, WriteString(name) + (body + r), name, body + r);
    DecodeWrittenBody(t, p, r);
  }

  /** If one step reads back one written entry, the loop reads back all of them. */
  lemma {:induction false} LoopReads(
      step: (Tracker, Bytes) -> Decoded, write: Pair -> Bytes, t: Tracker, ps: seq<Pair>, r: Bytes)
    requires AllWellTyped(ps)
    requires forall i, t, r :: 0 <= i < |ps| ==> step(t, write(ps[i]) + r) == Ok((Apply(t, ps[i]), r))
    ensures Loop(step, t, |ps|, Concat(write, ps) + r) == Ok((ApplyAll(t, ps), r))
    decreases ps
  {
    if ps == [] {
      assert Concat(write, ps) + r == r;
    } else {
      var more := ps[1..];
      Associate(write(ps[0]), Concat(write, more), r);
      forall i, t, r | 0 <= i < |more| ensures step(t, write(more[i]) + r) == Ok((Apply(t, more[i]), r)) {
        assert more[i] == ps[i + 1];
      }
      LoopReads(step, write, Apply(t, ps[0]), more, r);
    }
  }

  lemma {:induction false} DecodeWrittenPairs(t: Tracker, ps: seq<Pair>, r: Bytes)
    requires AllValid(ps) && AllWellTyped(ps)
    ensures DecodePairs(t, |ps|, WritePairs(ps) + r) == Ok((ApplyAll(t, ps), r))
  {
    forall i, t, r | 0 <= i < |ps| ensures DecodePair(t, WritePair(ps[i]) + r) == Ok((Apply(t, ps[i]), r)) {
      DecodeWrittenPair(t, ps[i], r);
    }
    LoopReads(DecodePair, WritePair, t, ps, r);
  }

  /** Every field entry of `ps` carries the value that `u` has for that field. */
  ghost predicate Agrees(ps: seq<Pair>, u: Tracker) {
    forall i :: 0 <= i < |ps| && ps[i].Known? ==> ps[i].value == u[ps[i].key]
  }

  ghost predicate Mentions(ps: seq<Pair>, k: Key) {
    exists i :: 0 <= i < |ps| && ps[i].Known? && ps[i].key == k
  }

  lemma {:induction false} MentionsFirstOrLater(ps: seq<Pair>, k: Key)
    requires ps != []
    ensures Mentions(ps, k) <==> (ps[0].Known? && ps[0].key == k) || Mentions(ps[1..], k)
  {
    var more := ps[1..];
    if Mentions(more, k) {
      var i :| 0 <= i < |more| && more[i].Known? && more[i].key == k;
      assert ps[i + 1] == more[i];
    }
    if Mentions(ps, k) && !(ps[0].Known? && ps[0].key == k) {
      var i :| 0 <= i < |ps| && ps[i].Known? && ps[i].key == k;
      assert more[i - 1] == ps[i];
    }
  }

  lemma {:induction false} FieldAfterOne(t: Tracker, p: Pair, k: Key)
    requires WellTyped(p)
    ensures Apply(t, p)[k] == if p.Known? && p.key == k then p.value else t[k]
  {
  }

  lemma {:induction false} RestAgrees(ps: seq<Pair>, u: Tracker)
    requires ps != [] && AllWellTyped(ps) && Agrees(ps, u)
    ensures WellTyped(ps[0]) && (ps[0].Known? ==> ps[0].value == u[ps[0].key])
    ensures AllWellTyped(ps[1..]) && Agrees(ps[1..], u)
  {
  }

  lemma {:induction false} FieldAfterAll(t: Tracker, ps: seq<Pair>, u: Tracker, k: Key)
    requires AllWellTyped(ps) && Agrees(ps, u)
    ensures ApplyAll(t, ps)[k] == if Mentions(ps, k) then u[k] else t[k]
    decreases ps
  {
    if ps != [] {
      RestAgrees(ps, u);
      FieldAfterOne(t, ps[0], k);
      FieldAfterAll(Apply(t, ps[0]), ps[1..], u, k);
      MentionsFirstOrLater(ps, k);
    }
  }

  lemma {:induction false} AllFieldsMentioned(t: Tracker, ps: seq<Pair>, u: Tracker)
    requires AllWellTyped(ps) && Agrees(ps, u) && forall k :: Mentions(ps, k)
    ensures ApplyAll(t, ps) == u
  {
    var end := ApplyAll(t, ps);
    forall k: Key ensures end[k] == u[k] {
      FieldAfterAll(t, ps, u, k);
      assert Mentions(ps, k);
    }
    assert end == u;
  }

  /**
   Any list of entries decodes: the fields it gives take the values they have in `u`, and all others
   keep what the receiver had.
  */
  lemma {:induction false} AnyEntriesDecode(z: Tracker, u: Tracker, ps: seq<Pair>, r: Bytes) returns (t: Tracker)
    requires |ps| < MAX_UINT32 && AllValid(ps) && Agrees(ps, u)
    ensures Unmarshal(z, MapHeader(|ps|) + WritePairs(ps) + r) == Ok((t, r))
    ensures forall k :: t[k] == if Mentions(ps, k) then u[k] else z[k]
  {
    Associate(MapHeader(|ps|), WritePairs(ps), r);
    ReadMapHeaderOf(|ps|, WritePairs(ps) + r);
    ValidIsWellTyped(ps);
    DecodeWrittenPairs(z, ps, r);
    t := ApplyAll(z, ps);
    forall k ensures t[k] == if Mentions(ps, k) then u[k] else z[k] {
      FieldAfterAll(z, ps, u, k);
    }
  }

  /**
   Decoding depends on neither the order of the entries nor the receiver: any list of entries
   that gives every field at least once, always with the value it has in `u`, mixed with any
   well-formed entries under other names, decodes to `u` and leaves the bytes that follow.
  */
  lemma {:induction false} AnyOrderDecodes(z: Tracker, u: Tracker, ps: seq<Pair>, r: Bytes)
    requires |ps| < MAX_UINT32 && AllValid(ps) && Agrees(ps, u) && forall k :: Mentions(ps, k)
    ensures Unmarshal(z, MapHeader(|ps|) + WritePairs(ps) + r) == Ok((u, r))
  {
    Associate(MapHeader(|ps|), WritePairs(ps), r);
    ReadMapHeaderOf(|ps|, WritePairs(ps) + r);
    ValidIsWellTyped(ps);
    DecodeWrittenPairs(z, ps, r);
    AllFieldsMentioned(z, ps, u);
  }

  // ---- The tracker's own encoding

  lemma {:induction false} IndexOf(k: Key) returns (i: nat)
    ensures i < |KEYS| && KEYS[i] == k
  {
    match k {
      case ID => i := 0;
      case PoolIndex => i := 1;
      case SetIndex => i := 2;
      case DiskIndex => i := 3;
      case Path => i := 4;
      case Endpoint => i := 5;
      case Started => i := 6;
      case LastUpdate => i := 7;
      case ObjectsHealed => i := 8;
      case ObjectsFailed => i := 9;
      case BytesDone => i := 10;
      case BytesFailed => i := 11;
      case Bucket => i := 12;
      case Object => i := 13;
      case ResumeObjectsHealed => i := 14;
      case ResumeObjectsFailed => i := 15;
      case ResumeBytesDone => i := 16;
      case ResumeBytesFailed => i := 17;
      case QueuedBuckets => i := 18;
      case HealedBuckets => i := 19;
    }
  }

  lemma {:induction false} EveryFieldWritten(t: Tracker, k: Key)
    ensures Mentions(Fields(t), k)
  {
    var i := IndexOf(k);
    assert Fields(t)[i].Known? && Fields(t)[i].key == k;
  }

  lemma {:induction false} HeaderForTwenty()
    ensures MapHeader(20) == [0xde, 0x0, 0x14]
  {
    assert BigEndian(20, 2) == BigEndian(0, 1) + [20];
    assert BigEndian(0, 1) == BigEndian(0, 0) + [0];
  }

  predicate FitsTracker(t: Tracker) {
    forall k :: Fits(t[k])
  }

  /**
   UnmarshalMsg undoes MarshalMsg: whatever value the receiver had and whatever bytes follow, the
   tracker comes back and those bytes are left. Receivers with slices are in TrackerReceivers.
  */
  lemma {:induction false} UnmarshalAfterMarshal(z: Tracker, t: Tracker, r: Bytes)
    requires FitsTracker(t)
    ensures Unmarshal(z, Marshal(t) + r) == Ok((t, r))
  {
    var ps := Fields(t);
    HeaderForTwenty();
    forall k ensures Mentions(ps, k) {
      EveryFieldWritten(t, k);
    }
    forall i | 0 <= i < |ps| ensures ValidPair(ps[i]) {
      assert Fits(t[KEYS[i]]);
    }
    AnyOrderDecodes(z, t, ps, r);
  }

  // ---- The encoding is one object

  lemma {:induction false} ListObject(l: seq<Bytes>) returns (o: Tree)
    requires Fits(Texts(l))
    ensures WellFormed(o) && WriteTree(o) == WriteValue(Texts(l))
  {
    var a, _ := WrittenHeaders(|l|);
    var kids := StringObjects(l);
    o := Tree(a, kids);
  }

  lemma {:induction false} ValueObject(v: Value) returns (o: Tree)
    requires Fits(v)
    ensures WellFormed(o) && WriteTree(o) == WriteValue(v)
  {
    match v {
      case Text(s) => o := StringObject(s);
      case Int(i) =>
        var h := WrittenInt(i);
        o := Leaf(h);
      case Uint(u) =>
        var h := WrittenUint(u);
        o := Leaf(h);
      case Stamp(t) =>
        WrittenTime(t);
        o := Leaf(ExtHead(1, 5, t));
      case Texts(l) => o := ListObject(l);
    }
  }

  lemma {:induction false} PairObjects(p: Pair) returns (name: Tree, body: Tree)
    requires ValidPair(p)
    ensures WellFormed(name) && WellFormed(body) && WriteTree(name) + WriteTree(body) == WritePair(p)
  {
    NameFits(p);
    name := StringObject(PairName(p));
    if p.Known? {
      body := ValueObject(p.value);
    } else {
      body := p.tree;
    }
  }

  lemma {:induction false} EntryObjects(ps: seq<Pair>) returns (os: Forest)
    requires AllValid(ps)
    ensures AllWellFormed(os) && Length(os) == 2 * |ps| && WriteForest(os) == WritePairs(ps)
  {
    if ps == [] {
      os := Nil;
    } else {
      var name, body := PairObjects(ps[0]);
      var more := EntryObjects(ps[1..]);
      os := Cons(name, Cons(body, more));
      Associate(WriteTree(name), WriteTree(body), WriteForest(more));
    }
  }

  /** The encoding of a tracker is exactly one MessagePack object: a decoder that does not know it skips it. */
  lemma {:induction false} EncodingIsOneObject(t: Tracker, r: Bytes)
    requires FitsTracker(t)
    ensures Skip(Marshal(t) + r) == Ok(r)
  {
    var ps := Fields(t);
    forall i | 0 <= i < |ps| ensures ValidPair(ps[i]) {
      assert Fits(t[KEYS[i]]);
    }
    var kids := EntryObjects(ps);
    var _, m := WrittenHeaders(20);
    HeaderForTwenty();
    SkipWritten(Tree(m, kids), r);
  }

  // ---- Longer strings do not survive

  lemma {:induction false} PayloadFits(b: Bytes)
    requires |b| >= 1 && (IsString(b[0]) || IsBinary(b[0])) && Payload(b).Ok?
    ensures |Payload(b).value.0| < MAX_UINT32
  {
    var f := FormatOf(b[0]);
    Powers();
    if f.Sized? {
      FromBigEndianBounded(b[1..1 + f.width]);
    }
  }

  lemma {:induction false} StringsReadFit(b: Bytes, n: nat)
    requires ReadStrings(b, n).Ok?
    ensures var l := ReadStrings(b, n).value.0;
            |l| == n && forall i :: 0 <= i < n ==> |l[i]| < MAX_UINT32
    decreases n
  {
    if n > 0 {
      PayloadFits(b);
      StringsReadFit(ReadString(b).value.1, n - 1);
    }
  }

  lemma {:induction false} ValueReadFits(kind: Kind, b: Bytes)
    requires ReadValue(kind, b).Ok?
    ensures Fits(ReadValue(kind, b).value.0)
  {
    match kind {
      case StringKind => PayloadFits(b);
      case ListKind =>
        var (n, rest) := ReadArrayHeader(b).value;
        Powers();
        if b[0] == 0xdc {
          FromBigEndianBounded(b[1..3]);
        } else if b[0] == 0xdd {
          FromBigEndianBounded(b[1..5]);
        }
        StringsReadFit(rest, n);
      case _ =>
    }
  }

  lemma {:induction false} BodyKeepsFit(t: Tracker, name: Bytes, b: Bytes)
    requires FitsTracker(t) && DecodeBody(t, name, b).Ok?
    ensures FitsTracker(DecodeBody(t, name, b).value.0)
  {
    match KeyNamed(name) {
      case None =>
      case Some(k) => ValueReadFits(KindOf(k), b);
    }
  }

  lemma {:induction false} LoopKeeps<T, E>(
      step: (T, Bytes) -> Result<(T, Bytes), E>, keep: T -> bool, t: T, n: nat, b: Bytes)
    requires keep(t) && Loop(step, t, n, b).Ok?
    requires forall t, b :: keep(t) && step(t, b).Ok? ==> keep(step(t, b).value.0)
    ensures keep(Loop(step, t, n, b).value.0)
    decreases n
  {
    if n > 0 {
      var next := step(t, b);
      assert keep(next.value.0);
      LoopKeeps(step, keep, next.value.0, n - 1, next.value.1);
    }
  }

  lemma {:induction false} DecodedFits(t: Tracker, b: Bytes)
    requires FitsTracker(t) && Unmarshal(t, b).Ok?
    ensures FitsTracker(Unmarshal(t, b).value.0)
  {
    forall t, b | FitsTracker(t) && DecodePair(t, b).Ok? ensures FitsTracker(DecodePair(t, b).value.0) {
      var (name, rest) := ReadMapKey(b).value;
      BodyKeepsFit(t, name, rest);
    }
    var (n, rest) := ReadMapHeader(b).value;
    LoopKeeps(DecodePair, (t: Tracker) => FitsTracker(t), t, n, rest);
  }

  function ZeroTracker(): Tracker { map k: Key | true :: Zero(KindOf(k)) }

  /** A new receiver holds nothing: empty texts and lists, zero numbers and times. */
  lemma {:induction false} ZeroTrackerIsEmpty(k: Key)
    ensures match ZeroTracker()[k]
            case Text(s) => s == []
            case Int(i) => i == 0
            case Uint(u) => u == 0
            case Stamp(t) => t == seq(12, _ => 0)
            case Texts(l) => l == []
  {
  }

  lemma {:induction false} ZeroTrackerFits()
    ensures FitsTracker(ZeroTracker())
  {
  }

  lemma {:induction false} OnlyFittingTrackersAreDecoded(b: Bytes, t: Tracker, r: Bytes)
    requires Unmarshal(ZeroTracker(), b) == Ok((t, r))
    ensures FitsTracker(t)
  {
    ZeroTrackerFits();
    DecodedFits(ZeroTracker(), b);
  }

  ghost predicate RoundTrips(t: Tracker) {
    forall z, r :: Unmarshal(z, Marshal(t) + r) == Ok((t, r))
  }

  /** The exact condition for the round trip: every length fits the 32-bit length fields. */
  lemma {:induction false} RoundTripExactlyWhenLengthsFit(t: Tracker)
    ensures RoundTrips(t) <==> FitsTracker(t)
  {
    if FitsTracker(t) {
      forall z, r ensures Unmarshal(z, Marshal(t) + r) == Ok((t, r)) {
        UnmarshalAfterMarshal(z, t, r);
      }
    } else if RoundTrips(t) {
      OnlyFittingTrackersAreDecoded(Marshal(t) + [], t, []);
    }
  }

  // ---- The size estimate

  const STRING_PREFIX_SIZE := 5
  const INT_SIZE := 9
  const UINT64_SIZE := 9
  const TIME_SIZE := 15
  const ARRAY_HEADER_SIZE := 5

  function ListSize(l: seq<Bytes>): nat {
    if l == [] then 0 else STRING_PREFIX_SIZE + |l[0]| + ListSize(l[1..])
  }

  function ValueBound(v: Value): nat {
    match v
    case Text(s) => STRING_PREFIX_SIZE + |s|
    case Int(_) => INT_SIZE
    case Uint(_) => UINT64_SIZE
    case Stamp(_) => TIME_SIZE
    case Texts(l) => ARRAY_HEADER_SIZE + ListSize(l)
  }

  lemma {:induction false} ListWithinBound(l: seq<Bytes>)
    ensures |WriteStrings(l)| <= ListSize(l)
  {
    if l != [] {
      ListWithinBound(l[1..]);
    }
  }

  lemma {:induction false} ValueWithinBound(v: Value)
    ensures |WriteValue(v)| <= ValueBound(v)
  {
    if v.Texts? {
      ListWithinBound(v.texts);
    }
  }

  /** The encoded name of a field and the bound on its value. */
  function EntryBound(t: Tracker, k: Key): nat { 1 + HallmarkOf(k).0 + ValueBound(t[k]) }

  function Bounds(t: Tracker): Key -> nat { k => EntryBound(t, k) }

  /** The sum of f over the fields from the i-th on. */
  function SumFrom(f: Key -> nat, i: nat): nat
    requires i <= |KEYS|
    decreases |KEYS| - i
  {
    if i == |KEYS| then 0 else f(KEYS[i]) + SumFrom(f, i + 1)
  }

  /** Msgsize: the map header and, for each field in order, its name and the bound on its value. */
  function MsgSize(t: Tracker): nat { 3 + SumFrom(Bounds(t), 0) }

  /** The bound on one entry: the fixed part of it, and what its text or list adds. */
  function Variable(v: Value): nat {
    match v
    case Text(s) => |s|
    case Texts(l) => ListSize(l)
    case _ => 0
  }

  /** The fixed parts: a name with its length byte, and 5 for a string or list, 9 for a number, 15 for a time. */
  function FixedPart(k: Key): nat {
    match k
    case ID => 3 + 5
    case PoolIndex => 10 + 9
    case SetIndex => 9 + 9
    case DiskIndex => 10 + 9
    case Path => 5 + 5
    case Endpoint => 9 + 5
    case Started => 8 + 15
    case LastUpdate => 11 + 15
    case ObjectsHealed => 14 + 9
    case ObjectsFailed => 14 + 9
    case BytesDone => 10 + 9
    case BytesFailed => 12 + 9
    case Bucket => 7 + 5
    case Object => 7 + 5
    case ResumeObjectsHealed => 20 + 9
    case ResumeObjectsFailed => 20 + 9
    case ResumeBytesDone => 16 + 9
    case ResumeBytesFailed => 18 + 9
    case QueuedBuckets => 14 + 5
    case HealedBuckets => 14 + 5
  }

  /** The estimate for one entry is its fixed part and the length of its text or list. */
  lemma {:induction false} EntryBoundInParts(k: Key, v: Value)
    requires HasKind(v, KindOf(k))
    ensures 1 + HallmarkOf(k).0 + ValueBound(v) == FixedPart(k) + Variable(v)
  {
  }

  lemma {:induction false} SumSplits(f: Key -> nat, g: Key -> nat, h: Key -> nat, i: nat)
    requires i <= |KEYS| && forall k :: f(k) == g(k) + h(k)
    ensures SumFrom(f, i) == SumFrom(g, i) + SumFrom(h, i)
    decreases |KEYS| - i
  {
    SumIsOverAllFields(f, i);
    if i < |KEYS| {
      SumSplits(f, g, h, i + 1);
    }
  }

  lemma {:induction false} SumIsOverAllFields(f: Key -> nat, i: nat)
    requires i <= 20
    ensures |KEYS| == 20 && SumFrom(f, i) == if i == 20 then 0 else f(KEYS[i]) + SumFrom(f, i + 1)
  {
  }

  /** What the texts and lists of a tracker add to the estimate. */
  function VariableOf(t: Tracker): Key -> nat { k => Variable(t[k]) }

  /** A list counts five bytes for each text besides its length. */
  lemma {:induction false} ListSizeIs(l: seq<Bytes>)
    ensures ListSize(l) == if l == [] then 0 else 5 + |l[0]| + ListSize(l[1..])
  {
  }

  /** Msgsize in full: three bytes, the fixed parts of the fields, and the lengths of the texts and lists. */
  lemma {:induction false} MsgSizeInParts(t: Tracker)
    ensures MsgSize(t) == 3 + SumFrom(FixedPart, 0) + SumFrom(VariableOf(t), 0)
  {
    forall k ensures Bounds(t)(k) == FixedPart(k) + VariableOf(t)(k) {
      EntryBoundInParts(k, t[k]);
    }
    SumSplits(Bounds(t), FixedPart, VariableOf(t), 0);
  }

  lemma {:induction false} PairWithinBound(k: Key, v: Value)
    requires HasKind(v, KindOf(k))
    ensures |WritePair(Known(k, v))| <= 1 + HallmarkOf(k).0 + ValueBound(v)
  {
    NameHasHallmark(k);
    NamesAreShort(k);
    ValueWithinBound(v);
  }

  lemma {:induction false} EntriesWithinBound(t: Tracker, i: nat)
    requires i <= |KEYS|
    ensures |Concat(WritePair, Fields(t)[i..])| <= SumFrom(Bounds(t), i)
    decreases |KEYS| - i
  {
    if i < |KEYS| {
      PairWithinBound(KEYS[i], t[KEYS[i]]);
      EntriesWithinBound(t, i + 1);
      assert Fields(t)[i..][1..] == Fields(t)[i + 1..];
    }
  }

  /** Msgsize is never less than the length of the encoding. */
  lemma {:induction false} EncodingWithinMsgSize(t: Tracker)
    ensures |Marshal(t)| <= MsgSize(t)
  {
    EntriesWithinBound(t, 0);
    assert Fields(t)[0..] == Fields(t);
  }

  // ---- The loop stops early on short input

  lemma {:induction false} PairTakesTwoBytes(t: Tracker, b: Bytes)
    requires DecodePair(t, b).Ok?
    ensures |DecodePair(t, b).value.1| + 2 <= |b|
  {
    var (name, rest) := ReadMapKey(b).value;
    assert |rest| + 1 <= |b|;
    match KeyNamed(name) {
      case None =>
      case Some(k) => ValueTakesAByte(KindOf(k), rest);
    }
  }

  lemma {:induction false} StringsTakeNothingBack(b: Bytes, n: nat)
    requires ReadStrings(b, n).Ok?
    ensures |ReadStrings(b, n).value.1| <= |b|
    decreases n
  {
    if n > 0 {
      StringsTakeNothingBack(ReadString(b).value.1, n - 1);
    }
  }

  lemma {:induction false} ValueTakesAByte(kind: Kind, b: Bytes)
    requires ReadValue(kind, b).Ok?
    ensures |ReadValue(kind, b).value.1| + 1 <= |b|
  {
    if kind == ListKind {
      var (n, rest) := ReadArrayHeader(b).value;
      StringsTakeNothingBack(rest, n);
    }
  }

  lemma {:induction false} LoopTakesTwoBytes<T, E>(
      step: (T, Bytes) -> Result<(T, Bytes), E>, t: T, n: nat, b: Bytes)
    requires Loop(step, t, n, b).Ok?
    requires forall t, b :: step(t, b).Ok? ==> |step(t, b).value.1| + 2 <= |b|
    ensures 2 * n + |Loop(step, t, n, b).value.1| <= |b|
    decreases n
  {
    if n > 0 {
      var next := step(t, b);
      assert |next.value.1| + 2 <= |b|;
      LoopTakesTwoBytes(step, next.value.0, n - 1, next.value.1);
    }
  }

  /** However large the announced count, a successful decoding reads two bytes per entry. */
  lemma {:induction false} LoopIsBoundedByInput(t: Tracker, n: nat, b: Bytes)
    requires DecodePairs(t, n, b).Ok?
    ensures 2 * n + |DecodePairs(t, n, b).value.1| <= |b|
  {
    forall t, b | DecodePair(t, b).Ok? ensures |DecodePair(t, b).value.1| + 2 <= |b| {
      PairTakesTwoBytes(t, b);
    }
    LoopTakesTwoBytes(DecodePair, t, n, b);
  }
}
