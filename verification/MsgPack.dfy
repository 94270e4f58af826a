/**
 The MessagePack formats that the generated codec relies on: integers, strings, arrays, maps
 and the 12-byte time extension, with the readers that accept every width of a family, and
 `Skip`, which steps over one object of any kind.
*/
module MsgPack {
  import opened Common

  const MAX_UINT32 := 0x1_0000_0000
  const MAX_UINT64 := 0x1_0000_0000_0000_0000
  const MAX_INT64 := 0x8000_0000_0000_0000

  type Int64 = i: int | -MAX_INT64 <= i < MAX_INT64
  type Uint64 = u: int | 0 <= u < MAX_UINT64

  /** The payload of the time extension: seconds and nanoseconds, kept opaque. */
  type Time = t: Bytes | |t| == 12 witness [0, 0, 0, 0, 0, 0, 0, 0, 0, 0, 0, 0]

  datatype Error = ShortBytes | BadPrefix | UintOverflow | UintBelowZero

  type Read<T> = Result<(T, Bytes), Error>

  // ---- Big-endian numbers

  function Pow256(w: nat): (p: nat)
    ensures p > 0
  {
    if w == 0 then 1 else 256 * Pow256(w - 1)
  }

  /** The low `w` bytes of `n`, most significant first. */
  function BigEndian(n: nat, w: nat): (b: Bytes)
    ensures |b| == w
  {
    if w == 0 then [] else BigEndian(n / 256, w - 1) + [n % 256]
  }

  function FromBigEndian(b: Bytes): nat {
    if b == [] then 0 else 256 * FromBigEndian(b[..|b| - 1]) + b[|b| - 1]
  }

  lemma {:induction false} BigEndianRoundTrip(n: nat, w: nat)
    requires n < Pow256(w)
    ensures FromBigEndian(BigEndian(n, w)) == n
  {
    if w > 0 {
      BigEndianRoundTrip(n / 256, w - 1);
      assert BigEndian(n, w)[..w - 1] == BigEndian(n / 256, w - 1);
    }
  }

  lemma {:induction false} FromBigEndianBounded(b: Bytes)
    ensures FromBigEndian(b) < Pow256(|b|)
  {
    if b != [] {
      FromBigEndianBounded(b[..|b| - 1]);
    }
  }

  lemma {:induction false} Powers()
    ensures Pow256(1) == 256 && Pow256(2) == 0x1_0000 && Pow256(4) == MAX_UINT32 && Pow256(8) == MAX_UINT64
    ensures 2 * MAX_INT64 == MAX_UINT64
  {
    assert Pow256(1) == 256 * Pow256(0);
    assert Pow256(2) == 256 * Pow256(1);
    assert Pow256(3) == 256 * Pow256(2);
    assert Pow256(4) == 256 * Pow256(3);
    assert Pow256(5) == 256 * Pow256(4);
    assert Pow256(6) == 256 * Pow256(5);
    assert Pow256(7) == 256 * Pow256(6);
    assert Pow256(8) == 256 * Pow256(7);
  }

  /** `b` starts with a lead byte followed by the `w`-byte number `n`. */
  lemma {:induction false} NumberAfterLead(lead: Byte, n: nat, w: nat, r: Bytes)
    requires n < Pow256(w)
    ensures var b := [lead] + BigEndian(n, w) + r;
            |b| >= 1 + w && b[0] == lead && FromBigEndian(b[1..1 + w]) == n && b[1 + w..] == r
  {
    var b := [lead] + BigEndian(n, w) + r;
    BigEndianRoundTrip(n, w);
    assert b[1..1 + w] == BigEndian(n, w);
  }

  // ---- Writers

  /** The conversion uint32(n), which drops the high bits. */
  function Uint32(n: nat): (r: nat)
    ensures r < MAX_UINT32 && (n < MAX_UINT32 <==> r == n)
  {
    n % 0x1_0000_0000
  }

  function StringHeader(n: nat): Bytes {
    if n <= 31 then [0xa0 + n]
    else if n <= 0xff then [0xd9] + BigEndian(n, 1)
    else if n <= 0xffff then [0xda] + BigEndian(n, 2)
    else [0xdb] + BigEndian(Uint32(n), 4)
  }

  function WriteString(s: Bytes): Bytes { StringHeader(|s|) + s }

  function ArrayHeader(n: nat): Bytes
    requires n < MAX_UINT32
  {
    if n <= 15 then [0x90 + n]
    else if n <= 0xffff then [0xdc] + BigEndian(n, 2)
    else [0xdd] + BigEndian(n, 4)
  }

  function MapHeader(n: nat): Bytes
    requires n < MAX_UINT32
  {
    if n <= 15 then [0x80 + n]
    else if n <= 0xffff then [0xde] + BigEndian(n, 2)
    else [0xdf] + BigEndian(n, 4)
  }

  function WriteStrings(l: seq<Bytes>): Bytes {
    if l == [] then [] else WriteString(l[0]) + WriteStrings(l[1..])
  }

  function WriteInt(i: Int64): Bytes {
    if i >= 0 then
      if i <= 0x7f then [i]
      else if i <= 0x7fff then [0xd1] + BigEndian(i, 2)
      else if i <= 0x7fff_ffff then [0xd2] + BigEndian(i, 4)
      else [0xd3] + BigEndian(i, 8)
    else
      if i >= -32 then [256 + i]
      else if i >= -0x80 then [0xd0] + BigEndian(0x100 + i, 1)
      else if i >= -0x8000 then [0xd1] + BigEndian(0x1_0000 + i, 2)
      else if i >= -0x8000_0000 then [0xd2] + BigEndian(MAX_UINT32 + i, 4)
      else [0xd3] + BigEndian(MAX_UINT64 + i, 8)
  }

  function WriteUint(u: Uint64): Bytes {
    if u <= 0x7f then [u]
    else if u <= 0xff then [0xcc] + BigEndian(u, 1)
    else if u <= 0xffff then [0xcd] + BigEndian(u, 2)
    else if u <= 0xffff_ffff then [0xce] + BigEndian(u, 4)
    else [0xcf] + BigEndian(u, 8)
  }

  function WriteTime(t: Time): Bytes { [0xc7, 12, 5] + t }

  // ---- Readers

  /** The number in the `w` bytes after the lead byte. */
  function NumberAt(b: Bytes, w: nat): Result<nat, Error>
    requires |b| >= 1
  {
    if |b| < 1 + w then Err(ShortBytes) else Ok(FromBigEndian(b[1..1 + w]))
  }

  /** How a lead byte tells the extent of its object. */
  datatype Format =
    | Fixed(size: nat, body: nat, kids: nat)
    | Sized(width: nat, extra: nat)          // a length in `width` bytes, then `extra` bytes, then the payload
    | Container(width: nat, perEntry: nat)   // a count in `width` bytes, then `perEntry` objects for each
    | NeverUsed

  function FormatOf(lead: Byte): Format {
    if lead <= 0x7f || lead >= 0xe0 then Fixed(1, 0, 0)
    else if lead <= 0x8f then Fixed(1, 0, 2 * (lead - 0x80))
    else if lead <= 0x9f then Fixed(1, 0, lead - 0x90)
    else if lead <= 0xbf then Fixed(1 + lead - 0xa0, lead - 0xa0, 0)
    else match lead
      case 0xc1 => NeverUsed
      case 0xc4 => Sized(1, 0)
      case 0xc5 => Sized(2, 0)
      case 0xc6 => Sized(4, 0)
      case 0xc7 => Sized(1, 1)
      case 0xc8 => Sized(2, 1)
      case 0xc9 => Sized(4, 1)
      case 0xca => Fixed(5, 0, 0)
      case 0xcb => Fixed(9, 0, 0)
      case 0xcc => Fixed(2, 0, 0)
      case 0xcd => Fixed(3, 0, 0)
      case 0xce => Fixed(5, 0, 0)
      case 0xcf => Fixed(9, 0, 0)
      case 0xd0 => Fixed(2, 0, 0)
      case 0xd1 => Fixed(3, 0, 0)
      case 0xd2 => Fixed(5, 0, 0)
      case 0xd3 => Fixed(9, 0, 0)
      case 0xd4 => Fixed(3, 0, 0)
      case 0xd5 => Fixed(4, 0, 0)
      case 0xd6 => Fixed(6, 0, 0)
      case 0xd7 => Fixed(10, 0, 0)
      case 0xd8 => Fixed(18, 0, 0)
      case 0xd9 => Sized(1, 0)
      case 0xda => Sized(2, 0)
      case 0xdb => Sized(4, 0)
      case 0xdc => Container(2, 1)
      case 0xdd => Container(4, 1)
      case 0xde => Container(2, 2)
      case 0xdf => Container(4, 2)
      case _ => Fixed(1, 0, 0)     // nil, false, true
  }

  /** `size` bytes of head, of which the last `body` are payload, then `kids` more objects. */
  datatype Shape = Shape(size: nat, body: nat, kids: nat)

  function ShapeAs(b: Bytes, f: Format): Result<Shape, Error>
    requires |b| >= 1
  {
    match f
    case Fixed(size, body, kids) => Ok(Shape(size, body, kids))
    case NeverUsed => Err(BadPrefix)
    case Sized(w, extra) =>
      (match NumberAt(b, w)
       case Err(e) => Err(e)
       case Ok(n) => Ok(Shape(1 + w + extra + n, n, 0)))
    case Container(w, perEntry) =>
      (match NumberAt(b, w)
       case Err(e) => Err(e)
       case Ok(n) => Ok(Shape(1 + w, 0, perEntry * n)))
  }

  /** What the head of the next object says about its extent, for every lead byte. */
  function ShapeOf(b: Bytes): (r: Result<Shape, Error>)
    ensures r.Ok? ==> r.value.size >= 1
  {
    if |b| < 1 then Err(ShortBytes) else ShapeAs(b, FormatOf(b[0]))
  }

  function Skip(b: Bytes): (r: Result<Bytes, Error>)
    ensures r.Ok? ==> |r.value| < |b|
    decreases |b|, 0
  {
    match ShapeOf(b)
    case Err(e) => Err(e)
    case Ok(sh) => if |b| < sh.size then Err(ShortBytes) else SkipMany(b[sh.size..], sh.kids)
  }

  function SkipMany(b: Bytes, n: nat): (r: Result<Bytes, Error>)
    ensures r.Ok? ==> |r.value| <= |b|
    decreases |b|, n
  {
    if n == 0 then Ok(b)
    else match Skip(b)
      case Err(e) => Err(e)
      case Ok(rest) => SkipMany(rest, n - 1)
  }

  predicate IsString(lead: Byte) { 0xa0 <= lead <= 0xbf || 0xd9 <= lead <= 0xdb }

  predicate IsBinary(lead: Byte) { 0xc4 <= lead <= 0xc6 }

  /** The payload of the next object, which is a string or binary value. */
  function Payload(b: Bytes): Read<Bytes>
    requires |b| >= 1 && (IsString(b[0]) || IsBinary(b[0]))
  {
    match ShapeOf(b)
    case Err(e) => Err(e)
    case Ok(sh) =>
      if |b| < sh.size then Err(ShortBytes) else Ok((b[sh.size - sh.body..sh.size], b[sh.size..]))
  }

  function ReadString(b: Bytes): Read<Bytes> {
    if |b| < 1 then Err(ShortBytes)
    else if !IsString(b[0]) then Err(BadPrefix)
    else Payload(b)
  }

  /** Map keys may be strings or binary values. */
  function ReadMapKey(b: Bytes): Read<Bytes> {
    if |b| < 1 then Err(ShortBytes)
    else if !IsString(b[0]) && !IsBinary(b[0]) then Err(BadPrefix)
    else Payload(b)
  }

  function Counted(b: Bytes, w: nat): Read<nat>
    requires |b| >= 1
  {
    match NumberAt(b, w)
    case Err(e) => Err(e)
    case Ok(n) => Ok((n, b[1 + w..]))
  }

  function ReadMapHeader(b: Bytes): Read<nat> {
    if |b| < 1 then Err(ShortBytes)
    else if 0x80 <= b[0] <= 0x8f then Ok((b[0] - 0x80, b[1..]))
    else if b[0] == 0xde then Counted(b, 2)
    else if b[0] == 0xdf then Counted(b, 4)
    else Err(BadPrefix)
  }

  function ReadArrayHeader(b: Bytes): Read<nat> {
    if |b| < 1 then Err(ShortBytes)
    else if 0x90 <= b[0] <= 0x9f then Ok((b[0] - 0x90, b[1..]))
    else if b[0] == 0xdc then Counted(b, 2)
    else if b[0] == 0xdd then Counted(b, 4)
    else Err(BadPrefix)
  }

  /** n strings, each read by `text`. */
  function TextsFrom(text: Bytes -> Read<Bytes>, b: Bytes, n: nat): (r: Read<seq<Bytes>>)
    ensures r.Ok? ==> |r.value.0| == n
    decreases n
  {
    if n == 0 then Ok(([], b))
    else match text(b)
      case Err(e) => Err(e)
      case Ok((s, rest)) => Prepended([s], TextsFrom(text, rest, n - 1))
  }

  /** The strings already read, in front of those still to come. */
  function Prepended(done: seq<Bytes>, r: Read<seq<Bytes>>): Read<seq<Bytes>> {
    match r
    case Err(e) => Err(e)
    case Ok((l, rest)) => Ok((done + l, rest))
  }

  function ReadStrings(b: Bytes, n: nat): Read<seq<Bytes>> { TextsFrom(ReadString, b, n) }

  /** The primitive readers of a list: its header and one string. */
  datatype ListReader = ListReader(header: Bytes -> Read<nat>, text: Bytes -> Read<Bytes>)

  function ListFrom(rd: ListReader, b: Bytes): Read<seq<Bytes>> {
    match rd.header(b)
    case Err(e) => Err(e)
    case Ok((n, rest)) => TextsFrom(rd.text, rest, n)
  }

  function Signed(b: Bytes, w: nat): Read<int>
    requires |b| >= 1
  {
    match Counted(b, w)
    case Err(e) => Err(e)
    case Ok((n, rest)) => Ok((if 2 * n < Pow256(w) then n else n - Pow256(w), rest))
  }

  function Unsigned(b: Bytes, w: nat): Read<int>
    requires |b| >= 1
  {
    match Counted(b, w)
    case Err(e) => Err(e)
    case Ok((n, rest)) => Ok((n, rest))
  }

  datatype NumberFormat = PositiveFix | NegativeFix | UnsignedIn(width: nat) | SignedIn(width: nat) | NotANumber

  function NumberFormatOf(lead: Byte): NumberFormat {
    if lead <= 0x7f then PositiveFix
    else if lead >= 0xe0 then NegativeFix
    else match lead
      case 0xcc => UnsignedIn(1)
      case 0xcd => UnsignedIn(2)
      case 0xce => UnsignedIn(4)
      case 0xcf => UnsignedIn(8)
      case 0xd0 => SignedIn(1)
      case 0xd1 => SignedIn(2)
      case 0xd2 => SignedIn(4)
      case 0xd3 => SignedIn(8)
      case _ => NotANumber
  }

  /** An integer of any width and signedness. */
  function ReadNumber(b: Bytes): Read<int> {
    if |b| < 1 then Err(ShortBytes)
    else match NumberFormatOf(b[0])
      case PositiveFix => Ok((b[0], b[1..]))
      case NegativeFix => Ok((b[0] as int - 256, b[1..]))
      case UnsignedIn(w) => Unsigned(b, w)
      case SignedIn(w) => Signed(b, w)
      case NotANumber => Err(BadPrefix)
  }

  function ReadInt(b: Bytes): Read<Int64> {
    match ReadNumber(b)
    case Err(e) => Err(e)
    case Ok((i, rest)) => if -MAX_INT64 <= i < MAX_INT64 then Ok((i, rest)) else Err(UintOverflow)
  }

  function ReadUint(b: Bytes): Read<Uint64> {
    match ReadNumber(b)
    case Err(e) => Err(e)
    case Ok((i, rest)) => if 0 <= i < MAX_UINT64 then Ok((i, rest)) else Err(UintBelowZero)
  }

  function ReadTime(b: Bytes): Read<Time> {
    if |b| < 15 then Err(ShortBytes)
    else if b[0] != 0xc7 || b[1] != 12 || b[2] != 5 then Err(BadPrefix)
    else Ok((b[3..15], b[15..]))
  }

  // ---- Readers undo writers, whatever follows

  lemma {:induction false} ReadSizedString(lead: Byte, w: nat, s: Bytes, r: Bytes)
    requires (IsString(lead) || IsBinary(lead)) && FormatOf(lead) == Sized(w, 0) && |s| < Pow256(w)
    ensures var b := [lead] + BigEndian(|s|, w) + (s + r);
            b[0] == lead && Payload(b) == Ok((s, r))
  {
    var n := |s|;
    var b := [lead] + BigEndian(n, w) + (s + r);
    NumberAfterLead(lead, n, w, s + r);
    assert ShapeOf(b) == Ok(Shape(1 + w + n, n, 0));
    var rest := b[1 + w..];
    assert b[1 + w..1 + w + n] == rest[..n] == s;
    assert b[1 + w + n..] == rest[n..] == r;
  }

  lemma {:induction false} ReadFixString(s: Bytes, r: Bytes)
    requires |s| <= 31
    ensures var b := [0xa0 + |s|] + (s + r);
            IsString(b[0]) && Payload(b) == Ok((s, r))
  {
    var b := [0xa0 + |s|] + (s + r);
    assert b[1..1 + |s|] == s && b[1 + |s|..] == r;
  }

  lemma {:induction false} ReadWriteString(s: Bytes, r: Bytes)
    requires |s| < MAX_UINT32
    ensures ReadString(WriteString(s) + r) == Ok((s, r)) == ReadMapKey(WriteString(s) + r)
  {
    Powers();
    Associate(StringHeader(|s|), s, r);
    if |s| <= 31 {
      ReadFixString(s, r);
    } else if |s| <= 0xff {
      ReadSizedString(0xd9, 1, s, r);
    } else if |s| <= 0xffff {
      ReadSizedString(0xda, 2, s, r);
    } else {
      ReadSizedString(0xdb, 4, s, r);
    }
  }

  lemma {:induction false} ReadStringsStep(b: Bytes, n: nat, s: Bytes, rest: Bytes, l: seq<Bytes>, end: Bytes)
    requires ReadString(b) == Ok((s, rest)) && ReadStrings(rest, n) == Ok((l, end))
    ensures ReadStrings(b, n + 1) == Ok(([s] + l, end))
  {
  }

  lemma {:induction false} ReadWriteStrings(l: seq<Bytes>, r: Bytes)
    requires forall i :: 0 <= i < |l| ==> |l[i]| < MAX_UINT32
    ensures ReadStrings(WriteStrings(l) + r, |l|) == Ok((l, r))
  {
    if l == [] {
      assert WriteStrings(l) + r == r;
    } else {
      var rest := WriteStrings(l[1..]) + r;
      assert WriteStrings(l) + r == WriteString(l[0]) + rest;
      ReadWriteString(l[0], rest);
      ReadWriteStrings(l[1..], r);
      ReadStringsStep(WriteStrings(l) + r, |l| - 1, l[0], rest, l[1..], r);
      assert [l[0]] + l[1..] == l;
    }
  }

  lemma {:induction false} ReadArrayHeaderOf(n: nat, r: Bytes)
    requires n < MAX_UINT32
    ensures ReadArrayHeader(ArrayHeader(n) + r) == Ok((n, r))
  {
    Powers();
    if n > 15 {
      NumberAfterLead(if n <= 0xffff then 0xdc else 0xdd, n, if n <= 0xffff then 2 else 4, r);
    }
  }

  lemma {:induction false} ReadMapHeaderOf(n: nat, r: Bytes)
    requires n < MAX_UINT32
    ensures ReadMapHeader(MapHeader(n) + r) == Ok((n, r))
  {
    Powers();
    if n > 15 {
      NumberAfterLead(if n <= 0xffff then 0xde else 0xdf, n, if n <= 0xffff then 2 else 4, r);
    }
  }

  /** A signed number in two's complement, `w` bytes wide. */
  lemma {:induction false} ReadSigned(lead: Byte, i: int, w: nat, r: Bytes)
    requires NumberFormatOf(lead) == SignedIn(w)
    requires 0 <= 2 * i + Pow256(w) && 2 * i < Pow256(w)
    ensures ReadNumber([lead] + BigEndian(if i < 0 then Pow256(w) + i else i, w) + r) == Ok((i, r))
  {
    var n := if i < 0 then Pow256(w) + i else i;
    NumberAfterLead(lead, n, w, r);
    var b := [lead] + BigEndian(n, w) + r;
    assert Counted(b, w) == Ok((n, r));
    assert Signed(b, w) == Ok((i, r));
  }

  lemma {:induction false} ReadWriteInt(i: Int64, r: Bytes)
    ensures ReadInt(WriteInt(i) + r) == Ok((i, r))
  {
    Powers();
    assert ReadNumber(WriteInt(i) + r) == Ok((i, r)) by {
      if -32 <= i <= 0x7f {
      } else if -0x80 <= i < 0 {
        ReadSigned(0xd0, i, 1, r);
      } else if -0x8000 <= i < 0x8000 {
        ReadSigned(0xd1, i, 2, r);
      } else if -0x8000_0000 <= i < 0x8000_0000 {
        ReadSigned(0xd2, i, 4, r);
      } else {
        ReadSigned(0xd3, i, 8, r);
      }
    }
  }

  lemma {:induction false} ReadWriteUint(u: Uint64, r: Bytes)
    ensures ReadUint(WriteUint(u) + r) == Ok((u, r))
  {
    Powers();
    assert ReadNumber(WriteUint(u) + r) == Ok((u, r)) by {
      if 0x7f < u <= 0xff { NumberAfterLead(0xcc, u, 1, r); }
      else if 0xff < u <= 0xffff { NumberAfterLead(0xcd, u, 2, r); }
      else if 0xffff < u <= 0xffff_ffff { NumberAfterLead(0xce, u, 4, r); }
      else if 0xffff_ffff < u { NumberAfterLead(0xcf, u, 8, r); }
    }
  }

  lemma {:induction false} ReadWriteTime(t: Time, r: Bytes)
    ensures ReadTime(WriteTime(t) + r) == Ok((t, r))
  {
    var b := WriteTime(t) + r;
    assert b[3..15] == t && b[15..] == r;
  }

  // ---- The objects of the MessagePack specification

  /** The formats of the specification; arrays and maps carry only the number of their entries. */
  datatype Head =
    | NilHead
    | BoolHead(value: bool)
    | PositiveFixInt(i: int)
    | NegativeFixInt(i: int)
    | UintHead(bits: Bytes)
    | IntHead(bits: Bytes)
    | FloatHead(bits: Bytes)
    | FixStr(s: Bytes)
    | StrHead(width: nat, s: Bytes)
    | BinHead(width: nat, s: Bytes)
    | FixExt(kind: Byte, data: Bytes)
    | ExtHead(width: nat, kind: Byte, data: Bytes)
    | FixArray(n: nat)
    | ArrayHead(width: nat, n: nat)
    | FixMap(n: nat)
    | MapHead(width: nat, n: nat)

  predicate ValidHead(h: Head) {
    match h
    case NilHead => true
    case BoolHead(_) => true
    case PositiveFixInt(i) => 0 <= i < 128
    case NegativeFixInt(i) => -32 <= i < 0
    case UintHead(bits) => |bits| in {1, 2, 4, 8}
    case IntHead(bits) => |bits| in {1, 2, 4, 8}
    case FloatHead(bits) => |bits| in {4, 8}
    case FixStr(s) => |s| < 32
    case StrHead(w, s) => w in {1, 2, 4} && |s| < Pow256(w)
    case BinHead(w, s) => w in {1, 2, 4} && |s| < Pow256(w)
    case FixExt(_, data) => |data| in {1, 2, 4, 8, 16}
    case ExtHead(w, _, data) => w in {1, 2, 4} && |data| < Pow256(w)
    case FixArray(n) => n < 16
    case ArrayHead(w, n) => w in {2, 4} && n < Pow256(w)
    case FixMap(n) => n < 16
    case MapHead(w, n) => w in {2, 4} && n < Pow256(w)
  }

  /** The position of a width among 1, 2, 4, 8 and 16. */
  function Log2(w: nat): (r: nat)
    ensures r <= 4
  {
    if w <= 1 then 0 else if w == 2 then 1 else if w == 4 then 2 else if w == 8 then 3 else 4
  }

  /** The lead bytes of the specification, with what follows them before any nested object. */
  function HeadBytes(h: Head): Bytes {
    if !ValidHead(h) then [] else
    match h
    case NilHead => [0xc0]
    case BoolHead(value) => if value then [0xc3] else [0xc2]
    case PositiveFixInt(i) => [i]
    case NegativeFixInt(i) => [256 + i]
    case UintHead(bits) => [0xcc + Log2(|bits|)] + bits
    case IntHead(bits) => [0xd0 + Log2(|bits|)] + bits
    case FloatHead(bits) => [if |bits| == 4 then 0xca else 0xcb] + bits
    case FixStr(s) => [0xa0 + |s|] + s
    case StrHead(w, s) => [0xd9 + Log2(w)] + BigEndian(|s|, w) + s
    case BinHead(w, s) => [0xc4 + Log2(w)] + BigEndian(|s|, w) + s
    case FixExt(kind, data) => [0xd4 + Log2(|data|), kind] + data
    case ExtHead(w, kind, data) => [0xc7 + Log2(w)] + BigEndian(|data|, w) + ([kind] + data)
    case FixArray(n) => [0x90 + n]
    case ArrayHead(w, n) => [if w == 2 then 0xdc else 0xdd] + BigEndian(n, w)
    case FixMap(n) => [0x80 + n]
    case MapHead(w, n) => [if w == 2 then 0xde else 0xdf] + BigEndian(n, w)
  }

  /** How many objects are nested: the elements of an array, the keys and values of a map. */
  function KidsOf(h: Head): nat {
    match h
    case FixArray(n) => n
    case ArrayHead(_, n) => n
    case FixMap(n) => 2 * n
    case MapHead(_, n) => 2 * n
    case _ => 0
  }

  /** An object: its head and the objects nested in it. */
  datatype Tree = Tree(head: Head, kids: Forest)
  datatype Forest = Nil | Cons(first: Tree, rest: Forest)

  function Length(os: Forest): nat {
    if os == Nil then 0 else 1 + Length(os.rest)
  }

  predicate WellFormed(o: Tree) { ValidHead(o.head) && Length(o.kids) == KidsOf(o.head) && AllWellFormed(o.kids) }

  predicate AllWellFormed(os: Forest) {
    os == Nil || (WellFormed(os.first) && AllWellFormed(os.rest))
  }

  function WriteTree(o: Tree): Bytes { HeadBytes(o.head) + WriteForest(o.kids) }

  function WriteForest(os: Forest): Bytes {
    if os == Nil then [] else WriteTree(os.first) + WriteForest(os.rest)
  }

  // ---- The shape that Skip computes is that of the specification

  /** `head` is all that Skip takes for one head, and it then expects `kids` nested objects. */
  predicate IsHead(head: Bytes, kids: nat) {
    && ShapeOf(head).Ok?
    && ShapeOf(head).value.size == |head|
    && ShapeOf(head).value.kids == kids
  }

  lemma {:induction false} SizedShape(lead: Byte, w: nat, extra: nat, n: nat, tail: Bytes)
    requires FormatOf(lead) == Sized(w, extra) && n < Pow256(w) && |tail| == extra + n
    ensures IsHead([lead] + BigEndian(n, w) + tail, 0)
  {
    NumberAfterLead(lead, n, w, tail);
  }

  lemma {:induction false} CountedShape(lead: Byte, w: nat, per: nat, n: nat)
    requires FormatOf(lead) == Container(w, per) && n < Pow256(w)
    ensures IsHead([lead] + BigEndian(n, w), per * n)
  {
    NumberAfterLead(lead, n, w, []);
    assert [lead] + BigEndian(n, w) + [] == [lead] + BigEndian(n, w);
  }

  /** Skip takes every head of the specification for what it is. */
  lemma {:induction false} HeadHasItsShape(h: Head)
    requires ValidHead(h)
    ensures IsHead(HeadBytes(h), KidsOf(h))
  {
    match h {
      case StrHead(w, s) => SizedShape(0xd9 + Log2(w), w, 0, |s|, s);
      case BinHead(w, s) => SizedShape(0xc4 + Log2(w), w, 0, |s|, s);
      case ExtHead(w, kind, data) => SizedShape(0xc7 + Log2(w), w, 1, |data|, [kind] + data);
      case ArrayHead(w, n) => CountedShape(if w == 2 then 0xdc else 0xdd, w, 1, n);
      case MapHead(w, n) => CountedShape(if w == 2 then 0xde else 0xdf, w, 2, n);
      case _ =>
    }
  }

  lemma {:induction false} BytesOfNumber(b: Bytes)
    ensures BigEndian(FromBigEndian(b), |b|) == b
    decreases |b|
  {
    if b != [] {
      var front, last := b[..|b| - 1], b[|b| - 1];
      BytesOfNumber(front);
      var n := FromBigEndian(b);
      assert n / 256 == FromBigEndian(front) && n % 256 == last;
      assert b == front + [last];
    }
  }

  /** A head with a length or count field, taken apart. */
  lemma {:induction false} FieldAfterLead(b: Bytes, w: nat) returns (n: nat, tail: Bytes)
    requires |b| >= 1 + w
    ensures n == FromBigEndian(b[1..1 + w]) < Pow256(w) && b == [b[0]] + BigEndian(n, w) + tail
    ensures tail == b[1 + w..]
  {
    n, tail := FromBigEndian(b[1..1 + w]), b[1 + w..];
    FromBigEndianBounded(b[1..1 + w]);
    BytesOfNumber(b[1..1 + w]);
  }

  lemma {:induction false} SizedLeads(lead: Byte, w: nat, extra: nat)
    requires FormatOf(lead) == Sized(w, extra)
    ensures w in {1, 2, 4}
    ensures lead >= 0xd9 ==> lead == 0xd9 + Log2(w) && extra == 0
    ensures lead <= 0xc6 ==> lead == 0xc4 + Log2(w) && extra == 0
    ensures 0xc6 < lead < 0xd9 ==> lead == 0xc7 + Log2(w) && extra == 1
  {
  }

  lemma {:induction false} CountedLeads(lead: Byte, w: nat, per: nat)
    requires FormatOf(lead) == Container(w, per)
    ensures w in {2, 4} && per in {1, 2}
    ensures per == 1 ==> lead == if w == 2 then 0xdc else 0xdd
    ensures per == 2 ==> lead == if w == 2 then 0xde else 0xdf
  {
  }

  lemma {:induction false} SizeOfSized(b: Bytes, w: nat, extra: nat)
    requires b != [] && FormatOf(b[0]) == Sized(w, extra) && IsHead(b, 0)
    ensures |b| >= 1 + w && |b| == 1 + w + extra + FromBigEndian(b[1..1 + w])
  {
  }

  lemma {:induction false} SizeOfCounted(b: Bytes, w: nat, per: nat, kids: nat)
    requires b != [] && FormatOf(b[0]) == Container(w, per) && IsHead(b, kids)
    ensures |b| == 1 + w && kids == per * FromBigEndian(b[1..1 + w])
  {
  }

  lemma {:induction false} HeadFromSized(lead: Byte, w: nat, extra: nat, n: nat, tail: Bytes) returns (h: Head)
    requires w in {1, 2, 4} && n < Pow256(w) && |tail| == extra + n
    requires lead >= 0xd9 ==> lead == 0xd9 + Log2(w) && extra == 0
    requires lead <= 0xc6 ==> lead == 0xc4 + Log2(w) && extra == 0
    requires 0xc6 < lead < 0xd9 ==> lead == 0xc7 + Log2(w) && extra == 1
    ensures ValidHead(h) && HeadBytes(h) == [lead] + BigEndian(n, w) + tail && KidsOf(h) == 0
  {
    if lead >= 0xd9 {
      h := StrHead(w, tail);
    } else if lead <= 0xc6 {
      h := BinHead(w, tail);
    } else {
      assert tail == [tail[0]] + tail[1..];
      h := ExtHead(w, tail[0], tail[1..]);
    }
  }

  lemma {:induction false} SizedHead(b: Bytes, w: nat, extra: nat) returns (h: Head)
    requires b != [] && FormatOf(b[0]) == Sized(w, extra) && IsHead(b, 0)
    ensures ValidHead(h) && HeadBytes(h) == b && KidsOf(h) == 0
  {
    SizeOfSized(b, w, extra);
    SizedLeads(b[0], w, extra);
    var n, tail := FieldAfterLead(b, w);
    h := HeadFromSized(b[0], w, extra, n, tail);
  }

  lemma {:induction false} HeadFromCounted(lead: Byte, w: nat, per: nat, n: nat) returns (h: Head)
    requires w in {2, 4} && per in {1, 2} && n < Pow256(w)
    requires per == 1 ==> lead == if w == 2 then 0xdc else 0xdd
    requires per == 2 ==> lead == if w == 2 then 0xde else 0xdf
    ensures ValidHead(h) && HeadBytes(h) == [lead] + BigEndian(n, w) && KidsOf(h) == per * n
  {
    h := if per == 1 then ArrayHead(w, n) else MapHead(w, n);
  }

  lemma {:induction false} CountedHead(b: Bytes, w: nat, per: nat, kids: nat) returns (h: Head)
    requires b != [] && FormatOf(b[0]) == Container(w, per) && IsHead(b, kids)
    ensures ValidHead(h) && HeadBytes(h) == b && KidsOf(h) == kids
  {
    SizeOfCounted(b, w, per, kids);
    CountedLeads(b[0], w, per);
    var n, tail := FieldAfterLead(b, w);
    assert [b[0]] + BigEndian(n, w) + [] == [b[0]] + BigEndian(n, w);
    h := HeadFromCounted(b[0], w, per, n);
  }

  lemma {:induction false} FixedHead(b: Bytes, kids: nat) returns (h: Head)
    requires b != [] && FormatOf(b[0]).Fixed? && IsHead(b, kids)
    ensures ValidHead(h) && HeadBytes(h) == b && KidsOf(h) == kids
  {
    var lead, tail := b[0], b[1..];
    assert b == [lead] + tail;
    if lead < 0x80 {
      h := PositiveFixInt(lead);
    } else if lead < 0x90 {
      h := FixMap(lead - 0x80);
    } else if lead < 0xa0 {
      h := FixArray(lead - 0x90);
    } else if lead < 0xc0 {
      h := FixStr(tail);
    } else if lead == 0xc0 {
      h := NilHead;
    } else if lead < 0xca {
      h := BoolHead(lead == 0xc3);
    } else if lead < 0xcc {
      h := FloatHead(tail);
    } else if lead < 0xd0 {
      h := UintHead(tail);
    } else if lead < 0xd4 {
      h := IntHead(tail);
    } else if lead < 0xe0 {
      assert b == [lead, tail[0]] + tail[1..];
      h := FixExt(tail[0], tail[1..]);
    } else {
      h := NegativeFixInt(lead as int - 256);
    }
  }

  /** Whatever Skip takes for a head is one of the specification. */
  lemma {:induction false} ShapeIsAHead(b: Bytes, kids: nat) returns (h: Head)
    requires IsHead(b, kids)
    ensures ValidHead(h) && HeadBytes(h) == b && KidsOf(h) == kids
  {
    var f := FormatOf(b[0]);
    match f {
      case Fixed(_, _, _) => h := FixedHead(b, kids);
      case Sized(w, extra) => h := SizedHead(b, w, extra);
      case Container(w, per) => h := CountedHead(b, w, per, kids);
    }
  }

  // ---- Skip steps over exactly one well-formed object

  /** The shape depends on the head alone, whatever follows it. */
  lemma {:induction false} ShapeReadsOnlyTheHead(b: Bytes, r: Bytes)
    requires ShapeOf(b).Ok?
    ensures ShapeOf(b + r) == ShapeOf(b)
  {
    var f := FormatOf(b[0]);
    assert (b + r)[0] == b[0];
    if f.Sized? || f.Container? {
      assert (b + r)[1..1 + f.width] == b[1..1 + f.width];
    }
  }

  lemma {:induction false} ShapeKnownFromTheHead(b: Bytes)
    requires ShapeOf(b).Ok? && |b| >= ShapeOf(b).value.size
    ensures ShapeOf(b[..ShapeOf(b).value.size]) == ShapeOf(b)
  {
    var f := FormatOf(b[0]);
    var h := b[..ShapeOf(b).value.size];
    assert h[0] == b[0];
    if f.Sized? || f.Container? {
      var w := f.width;
      assert |h| >= 1 + w;
      var inHead, inAll := h[1..1 + w], b[1..1 + w];
      assert forall j :: 0 <= j < w ==> inHead[j] == inAll[j];
      assert inHead == inAll;
    }
  }

  lemma {:induction false} SkipWritten(o: Tree, r: Bytes)
    requires WellFormed(o)
    ensures Skip(WriteTree(o) + r) == Ok(r)
    decreases o
  {
    var head, rest := HeadBytes(o.head), WriteForest(o.kids) + r;
    HeadHasItsShape(o.head);
    Associate(head, WriteForest(o.kids), r);
    ShapeReadsOnlyTheHead(head, rest);
    SkipManyWritten(o.kids, r);
    assert (head + rest)[|head|..] == rest;
  }

  lemma {:induction false} SkipManyWritten(os: Forest, r: Bytes)
    requires AllWellFormed(os)
    ensures SkipMany(WriteForest(os) + r, Length(os)) == Ok(r)
    decreases os
  {
    if os == Nil {
      assert WriteForest(os) + r == r;
    } else {
      assert WriteForest(os) + r == WriteTree(os.first) + (WriteForest(os.rest) + r);
      SkipWritten(os.first, WriteForest(os.rest) + r);
      SkipManyWritten(os.rest, r);
    }
  }

  lemma {:induction false} SkipSplits(b: Bytes, end: Bytes) returns (head: Bytes, tail: Bytes, kids: nat)
    requires Skip(b) == Ok(end)
    ensures b == head + tail && |tail| < |b| && IsHead(head, kids) && SkipMany(tail, kids) == Ok(end)
  {
    var sh := ShapeOf(b).value;
    head, tail, kids := b[..sh.size], b[sh.size..], sh.kids;
    ShapeKnownFromTheHead(b);
  }

  lemma {:induction false} TreeFromParts(head: Bytes, kids: Forest, end: Bytes) returns (o: Tree)
    requires IsHead(head, Length(kids)) && AllWellFormed(kids)
    ensures WellFormed(o) && head + (WriteForest(kids) + end) == WriteTree(o) + end
  {
    var h := ShapeIsAHead(head, Length(kids));
    o := Tree(h, kids);
    assert head + (WriteForest(kids) + end) == (head + WriteForest(kids)) + end;
  }

  lemma {:induction false} SkipManySplits(b: Bytes, n: nat, end: Bytes) returns (rest: Bytes)
    requires n > 0 && SkipMany(b, n) == Ok(end)
    ensures Skip(b) == Ok(rest) && |rest| < |b| && SkipMany(rest, n - 1) == Ok(end)
  {
    rest := Skip(b).value;
  }

  lemma {:induction false} ForestFromParts(o: Tree, more: Forest, end: Bytes) returns (os: Forest)
    requires WellFormed(o) && AllWellFormed(more)
    ensures AllWellFormed(os) && Length(os) == Length(more) + 1
    ensures WriteTree(o) + (WriteForest(more) + end) == WriteForest(os) + end
  {
    os := Cons(o, more);
    assert WriteTree(o) + (WriteForest(more) + end) == (WriteTree(o) + WriteForest(more)) + end;
  }

  lemma {:induction false} SkippedWasTree(b: Bytes, end: Bytes) returns (o: Tree)
    requires Skip(b) == Ok(end)
    ensures WellFormed(o) && b == WriteTree(o) + end
    decreases |b|, 0
  {
    var head, tail, n := SkipSplits(b, end);
    var kids := SkippedWasForest(tail, n, end);
    o := TreeFromParts(head, kids, end);
  }

  lemma {:induction false} SkippedWasForest(b: Bytes, n: nat, end: Bytes) returns (os: Forest)
    requires SkipMany(b, n) == Ok(end)
    ensures AllWellFormed(os) && Length(os) == n && b == WriteForest(os) + end
    decreases |b|, n
  {
    if n == 0 {
      os := Nil;
    } else {
      var rest := SkipManySplits(b, n, end);
      var o := SkippedWasTree(b, rest);
      var more := SkippedWasForest(rest, n - 1, end);
      os := ForestFromParts(o, more, end);
    }
  }

  /** Skip succeeds exactly on inputs that start with a well-formed object, and removes it. */
  lemma {:induction false} SkipRemovesOneObject(b: Bytes, r: Bytes)
    ensures Skip(b) == Ok(r) <==> exists o :: WellFormed(o) && b == WriteTree(o) + r
  {
    if Skip(b) == Ok(r) {
      var o := SkippedWasTree(b, r);
    }
    forall o | WellFormed(o) && b == WriteTree(o) + r ensures Skip(b) == Ok(r) {
      SkipWritten(o, r);
    }
  }

  // ---- What the readers make of every head

  function TextOf(h: Head): Option<Bytes> {
    match h
    case FixStr(s) => Some(s)
    case StrHead(_, s) => Some(s)
    case _ => None
  }

  /** Map keys may also be binary. */
  function KeyTextOf(h: Head): Option<Bytes> { if h.BinHead? then Some(h.s) else TextOf(h) }

  /** Two's complement. */
  function SignedValue(bits: Bytes): int {
    var n := FromBigEndian(bits);
    if 2 * n < Pow256(|bits|) then n else n - Pow256(|bits|)
  }

  function NumberOf(h: Head): Option<int> {
    match h
    case PositiveFixInt(i) => Some(i)
    case NegativeFixInt(i) => Some(i)
    case UintHead(bits) => Some(FromBigEndian(bits))
    case IntHead(bits) => Some(SignedValue(bits))
    case _ => None
  }

  function ArrayCountOf(h: Head): Option<nat> {
    match h
    case FixArray(n) => Some(n)
    case ArrayHead(_, n) => Some(n)
    case _ => None
  }

  function MapCountOf(h: Head): Option<nat> {
    match h
    case FixMap(n) => Some(n)
    case MapHead(_, n) => Some(n)
    case _ => None
  }

  /** A value of the expected kind and the rest, or the error for another kind. */
  function Expect<T>(v: Option<T>, r: Bytes): Read<T> {
    if v.Some? then Ok((v.value, r)) else Err(BadPrefix)
  }

  /** The lead byte of a head, as far as the readers look at it. */
  lemma {:induction false} LeadOf(h: Head)
    requires ValidHead(h)
    ensures HeadBytes(h) != []
    ensures var lead := HeadBytes(h)[0];
            && (IsString(lead) <==> TextOf(h).Some?) && (IsBinary(lead) <==> h.BinHead?)
            && (NumberFormatOf(lead) == NotANumber <==> NumberOf(h) == None)
            && (0x90 <= lead <= 0x9f <==> h.FixArray?) && (lead in {0xdc, 0xdd} <==> h.ArrayHead?)
            && (0x80 <= lead <= 0x8f <==> h.FixMap?) && (lead in {0xde, 0xdf} <==> h.MapHead?)
  {
  }

  lemma {:induction false} LeadIsFirst(h: Head, r: Bytes)
    requires ValidHead(h)
    ensures HeadBytes(h) != [] && (HeadBytes(h) + r)[0] == HeadBytes(h)[0]
  {
    LeadOf(h);
  }

  lemma {:induction false} PayloadOfHead(h: Head, r: Bytes)
    requires ValidHead(h) && KeyTextOf(h).Some?
    ensures var b := HeadBytes(h) + r;
            b != [] && (IsString(b[0]) || IsBinary(b[0])) && Payload(b) == Ok((KeyTextOf(h).value, r))
  {
    LeadOf(h);
    LeadIsFirst(h, r);
    match h {
      case FixStr(s) =>
        Associate([0xa0 + |s|], s, r);
        ReadFixString(s, r);
      case StrHead(w, s) =>
        Associate([0xd9 + Log2(w)] + BigEndian(|s|, w), s, r);
        ReadSizedString(0xd9 + Log2(w), w, s, r);
      case BinHead(w, s) =>
        Associate([0xc4 + Log2(w)] + BigEndian(|s|, w), s, r);
        ReadSizedString(0xc4 + Log2(w), w, s, r);
    }
  }

  /** A string is read from every string head, a key also from every binary one, and from no other. */
  lemma {:induction false} ReadStringOfHead(h: Head, r: Bytes)
    requires ValidHead(h)
    ensures ReadString(HeadBytes(h) + r) == Expect(TextOf(h), r)
    ensures ReadMapKey(HeadBytes(h) + r) == Expect(KeyTextOf(h), r)
  {
    LeadOf(h);
    LeadIsFirst(h, r);
    if KeyTextOf(h).Some? {
      PayloadOfHead(h, r);
    }
  }

  lemma {:induction false} NumberLeads(h: Head)
    requires ValidHead(h) && (h.UintHead? || h.IntHead?)
    ensures HeadBytes(h) == [HeadBytes(h)[0]] + h.bits
    ensures NumberFormatOf(HeadBytes(h)[0]) == if h.UintHead? then UnsignedIn(|h.bits|) else SignedIn(|h.bits|)
  {
  }

  lemma {:induction false} BitsAfterLead(lead: Byte, bits: Bytes, r: Bytes)
    ensures var b := [lead] + bits + r;
            Counted(b, |bits|) == Ok((FromBigEndian(bits), r))
  {
    var b := [lead] + bits + r;
    assert b[1..1 + |bits|] == bits && b[1 + |bits|..] == r;
  }

  /** A number is read from every integer head of either signedness and any width, and from no other. */
  lemma {:induction false} ReadNumberOfHead(h: Head, r: Bytes)
    requires ValidHead(h)
    ensures ReadNumber(HeadBytes(h) + r) == Expect(NumberOf(h), r)
  {
    LeadOf(h);
    LeadIsFirst(h, r);
    if h.UintHead? || h.IntHead? {
      NumberLeads(h);
      BitsAfterLead(HeadBytes(h)[0], h.bits, r);
    } else if h.PositiveFixInt? || h.NegativeFixInt? {
      assert (HeadBytes(h) + r)[1..] == r;
    }
  }

  lemma {:induction false} ReadHeadersOfHead(h: Head, r: Bytes)
    requires ValidHead(h)
    ensures ReadArrayHeader(HeadBytes(h) + r) == Expect(ArrayCountOf(h), r)
    ensures ReadMapHeader(HeadBytes(h) + r) == Expect(MapCountOf(h), r)
  {
    LeadOf(h);
    LeadIsFirst(h, r);
    match h {
      case FixArray(n) => assert (HeadBytes(h) + r)[1..] == r;
      case FixMap(n) => assert (HeadBytes(h) + r)[1..] == r;
      case ArrayHead(w, n) => NumberAfterLead(if w == 2 then 0xdc else 0xdd, n, w, r);
      case MapHead(w, n) => NumberAfterLead(if w == 2 then 0xde else 0xdf, n, w, r);
      case _ =>
    }
  }

  // ---- What the writers produce

  /** `h` is written as `b`, and no other head with the same meaning is shorter. */
  ghost predicate Shortest<T>(b: Bytes, h: Head, meaning: Head -> Option<T>) {
    && ValidHead(h) && HeadBytes(h) == b
    && forall g :: ValidHead(g) && meaning(g) == meaning(h) ==> |b| <= |HeadBytes(g)|
  }

  /** The number, if the head is one that the signed writer may choose. */
  function SignedNumberOf(h: Head): Option<int> { if h.UintHead? then None else NumberOf(h) }

  function UnsignedNumberOf(h: Head): Option<int> { if h.IntHead? then None else NumberOf(h) }

  lemma {:induction false} TextLength(g: Head)
    requires ValidHead(g) && TextOf(g).Some?
    ensures var s := TextOf(g).value;
            |HeadBytes(g)| >= |s| + if |s| <= 31 then 1 else if |s| <= 0xff then 2 else if |s| <= 0xffff then 3 else 5
  {
    Powers();
  }

  /** A string is written as the shortest string head. */
  lemma {:induction false} WrittenString(s: Bytes) returns (h: Head)
    requires |s| < MAX_UINT32
    ensures TextOf(h) == Some(s) && Shortest(WriteString(s), h, TextOf)
  {
    Powers();
    var n := |s|;
    h := if n <= 31 then FixStr(s) else StrHead(if n <= 0xff then 1 else if n <= 0xffff then 2 else 4, s);
    forall g | ValidHead(g) && TextOf(g) == Some(s) ensures |WriteString(s)| <= |HeadBytes(g)| {
      TextLength(g);
    }
  }

  lemma {:induction false} CountLength(g: Head, n: nat)
    requires ValidHead(g) && (ArrayCountOf(g) == Some(n) || MapCountOf(g) == Some(n))
    ensures |HeadBytes(g)| >= if n <= 15 then 1 else if n <= 0xffff then 3 else 5
  {
    Powers();
  }

  /** Arrays and maps get the shortest header. */
  lemma {:induction false} WrittenHeaders(n: nat) returns (a: Head, m: Head)
    requires n < MAX_UINT32
    ensures ArrayCountOf(a) == Some(n) && Shortest(ArrayHeader(n), a, ArrayCountOf)
    ensures MapCountOf(m) == Some(n) && Shortest(MapHeader(n), m, MapCountOf)
  {
    Powers();
    var w := if n <= 0xffff then 2 else 4;
    a := if n <= 15 then FixArray(n) else ArrayHead(w, n);
    m := if n <= 15 then FixMap(n) else MapHead(w, n);
    forall g | ValidHead(g) && ArrayCountOf(g) == Some(n) ensures |ArrayHeader(n)| <= |HeadBytes(g)| {
      CountLength(g, n);
    }
    forall g | ValidHead(g) && MapCountOf(g) == Some(n) ensures |MapHeader(n)| <= |HeadBytes(g)| {
      CountLength(g, n);
    }
  }

  lemma {:induction false} UnsignedLength(g: Head, u: nat)
    requires ValidHead(g) && UnsignedNumberOf(g) == Some(u)
    ensures |HeadBytes(g)| >= if u <= 0x7f then 1 else if u <= 0xff then 2 else if u <= 0xffff then 3
                              else if u <= 0xffff_ffff then 5 else 9
  {
    Powers();
    if g.UintHead? {
      FromBigEndianBounded(g.bits);
    }
  }

  lemma {:induction false} WrittenUint(u: Uint64) returns (h: Head)
    ensures UnsignedNumberOf(h) == Some(u) && Shortest(WriteUint(u), h, UnsignedNumberOf)
  {
    Powers();
    if u <= 0x7f {
      h := PositiveFixInt(u);
    } else {
      var w := if u <= 0xff then 1 else if u <= 0xffff then 2 else if u <= 0xffff_ffff then 4 else 8;
      h := UintHead(BigEndian(u, w));
      BigEndianRoundTrip(u, w);
    }
    forall g | ValidHead(g) && UnsignedNumberOf(g) == Some(u) ensures |WriteUint(u)| <= |HeadBytes(g)| {
      UnsignedLength(g, u);
    }
  }

  /** The bytes that two's complement needs for `i`. */
  function SignedWidth(i: int): nat {
    if -0x80 <= i <= 0x7f then 1 else if -0x8000 <= i <= 0x7fff then 2
    else if -0x8000_0000 <= i <= 0x7fff_ffff then 4 else 8
  }

  lemma {:induction false} SignedLength(g: Head, i: Int64)
    requires ValidHead(g) && SignedNumberOf(g) == Some(i)
    ensures |HeadBytes(g)| >= if -32 <= i <= 0x7f then 1 else 1 + SignedWidth(i)
  {
    Powers();
    if g.IntHead? {
      FromBigEndianBounded(g.bits);
    }
  }

  /** The bit pattern of `i` in its width. */
  function Pattern(i: int): int { if i < 0 then Pow256(SignedWidth(i)) + i else i }

  lemma {:induction false} PatternMeans(i: Int64)
    ensures 0 <= Pattern(i) < Pow256(SignedWidth(i))
    ensures SignedValue(BigEndian(Pattern(i), SignedWidth(i))) == i
  {
    Powers();
    BigEndianRoundTrip(Pattern(i), SignedWidth(i));
  }

  lemma {:induction false} WideIntBytes(i: Int64)
    requires !(-32 <= i <= 0x7f) && 0 <= Pattern(i)
    ensures WriteInt(i) == [0xd0 + Log2(SignedWidth(i))] + BigEndian(Pattern(i), SignedWidth(i))
  {
    Powers();
  }

  lemma {:induction false} WideInt(i: Int64) returns (h: Head)
    requires !(-32 <= i <= 0x7f)
    ensures ValidHead(h) && HeadBytes(h) == WriteInt(i) && SignedNumberOf(h) == Some(i)
  {
    PatternMeans(i);
    WideIntBytes(i);
    h := IntHead(BigEndian(Pattern(i), SignedWidth(i)));
  }

  lemma {:induction false} WrittenInt(i: Int64) returns (h: Head)
    ensures SignedNumberOf(h) == Some(i) && Shortest(WriteInt(i), h, SignedNumberOf)
  {
    if 0 <= i <= 0x7f {
      h := PositiveFixInt(i);
    } else if -32 <= i < 0 {
      h := NegativeFixInt(i);
    } else {
      h := WideInt(i);
    }
    forall g | ValidHead(g) && SignedNumberOf(g) == Some(i) ensures |HeadBytes(h)| <= |HeadBytes(g)| {
      SignedLength(g, i);
      SignedLengthIsReached(i);
    }
  }

  lemma {:induction false} SignedLengthIsReached(i: Int64)
    ensures |WriteInt(i)| == if -32 <= i <= 0x7f then 1 else 1 + SignedWidth(i)
  {
  }

  /** A time is an extension object of type 5. */
  lemma {:induction false} WrittenTime(t: Time)
    ensures ValidHead(ExtHead(1, 5, t)) && WriteTime(t) == HeadBytes(ExtHead(1, 5, t))
  {
    Powers();
    assert BigEndian(12, 1) == BigEndian(0, 0) + [12];
  }

  // ---- Written values as objects

  lemma {:induction false} Leaf(h: Head) returns (o: Tree)
    requires ValidHead(h) && KidsOf(h) == 0
    ensures WellFormed(o) && WriteTree(o) == HeadBytes(h)
  {
    o := Tree(h, Nil);
  }

  lemma {:induction false} StringObject(s: Bytes) returns (o: Tree)
    requires |s| < MAX_UINT32
    ensures WellFormed(o) && WriteTree(o) == WriteString(s)
  {
    var h := WrittenString(s);
    o := Leaf(h);
  }

  lemma {:induction false} StringObjects(l: seq<Bytes>) returns (os: Forest)
    requires forall i :: 0 <= i < |l| ==> |l[i]| < MAX_UINT32
    ensures AllWellFormed(os) && Length(os) == |l| && WriteForest(os) == WriteStrings(l)
  {
    if l == [] {
      os := Nil;
    } else {
      var o := StringObject(l[0]);
      var more := StringObjects(l[1..]);
      os := Cons(o, more);
    }
  }
}
