/**
 Query encoding of object names in listings (`s3URLEncode`): spaces become plus signs, other bytes
 outside the S3 set become percent escapes as in section 2.1 of RFC 3986.
*/
module S3Encode {
  import opened Common

  const PERCENT: Byte := 37
  const PLUS: Byte := 43
  const SPACE: Byte := 32

  predicate Between(lo: char, c: Byte, hi: char) { lo as int <= c <= hi as int }

  predicate ShouldEscape(c: Byte) {
    !Between('A', c, 'Z') && !Between('a', c, 'z') && !Between('0', c, '9') &&
    c != '-' as int && c != '_' as int && c != '.' as int && c != '/' as int && c != '*' as int
  }

  /** The upper-case hexadecimal digit of a nibble. */
  function HexDigit(n: nat): Byte
    requires n < 16
  {
    if n < 10 then '0' as int + n else 'A' as int + (n - 10)
  }

  predicate NeedsHex(c: Byte) { c != SPACE && ShouldEscape(c) }

  function EncodeByte(c: Byte): (e: Bytes)
    ensures |e| == if NeedsHex(c) then 3 else 1
  {
    if c == SPACE then [PLUS]
    else if ShouldEscape(c) then [PERCENT, HexDigit(c / 16), HexDigit(c % 16)]
    else [c]
  }

  function Encode(s: Bytes): Bytes {
    if s == [] then [] else Encode(s[..|s| - 1]) + EncodeByte(s[|s| - 1])
  }

  function HexCount(s: Bytes): nat {
    if s == [] then 0 else HexCount(s[..|s| - 1]) + if NeedsHex(s[|s| - 1]) then 1 else 0
  }

  lemma {:induction false} EncodedLength(s: Bytes)
    ensures |Encode(s)| == |s| + 2 * HexCount(s)
  {
    if s != [] {
      EncodedLength(s[..|s| - 1]);
    }
  }

  lemma {:induction false} HexCountGrows(s: Bytes, i: nat)
    requires i <= |s|
    ensures HexCount(s[..i]) <= HexCount(s)
    decreases |s|
  {
    if i < |s| {
      assert s[..|s| - 1][..i] == s[..i];
      HexCountGrows(s[..|s| - 1], i);
    } else {
      assert s[..i] == s;
    }
  }

  /** Both counters of the first loop. */
  method Count(s: Bytes) returns (spaceCount: nat, hexCount: nat)
    ensures hexCount == HexCount(s)
    ensures spaceCount == multiset(s)[SPACE]
  {
    spaceCount, hexCount := 0, 0;
    var i := 0;
    while i < |s|
      invariant i <= |s| && hexCount == HexCount(s[..i])
      invariant spaceCount == multiset(s[..i])[SPACE]
    {
      var c := s[i];
      assert s[..i + 1][..i] == s[..i] && s[..i + 1] == s[..i] + [c];
      if ShouldEscape(c) {
        if c == SPACE {
          spaceCount := spaceCount + 1;
        } else {
          hexCount := hexCount + 1;
        }
      }
      i := i + 1;
    }
    assert s[..i] == s;
  }

  lemma {:induction false} NoHexEncodesPointwise(s: Bytes)
    requires HexCount(s) == 0
    ensures Encode(s) == seq(|s|, i requires 0 <= i < |s| => if s[i] == SPACE then PLUS else s[i])
  {
    if s != [] {
      NoHexEncodesPointwise(s[..|s| - 1]);
    }
  }

  /** The path for names whose only bytes to replace are spaces. */
  method ReplaceSpaces(s: Bytes, t: array<Byte>)
    requires HexCount(s) == 0 && t.Length == |s|
    modifies t
    ensures t[..] == Encode(s)
  {
    forall i | 0 <= i < |s| {
      t[i] := s[i];
    }
    var i := 0;
    while i < |s|
      invariant i <= |s|
      invariant forall k :: 0 <= k < i ==> t[k] == if s[k] == SPACE then PLUS else s[k]
      invariant forall k :: i <= k < |s| ==> t[k] == s[k]
    {
      if s[i] == SPACE {
        t[i] := PLUS;
      }
      i := i + 1;
    }
    NoHexEncodesPointwise(s);
  }

  /** Writes the code of one byte at j. */
  method PutByte(t: array<Byte>, j: nat, c: Byte) returns (j': nat)
    requires j + |EncodeByte(c)| <= t.Length
    modifies t
    ensures j' == j + |EncodeByte(c)|
    ensures t[..j'] == old(t[..j]) + EncodeByte(c)
  {
    if c == SPACE {
      t[j] := PLUS;
      return j + 1;
    } else if ShouldEscape(c) {
      t[j] := PERCENT;
      t[j + 1] := HexDigit(c / 16);
      t[j + 2] := HexDigit(c % 16);
      return j + 3;
    } else {
      t[j] := c;
      return j + 1;
    }
  }

  lemma {:induction false} RoomForNext(s: Bytes, i: nat)
    requires i < |s|
    ensures |s[..i]| + 2 * HexCount(s[..i]) + |EncodeByte(s[i])| <= |s| + 2 * HexCount(s)
    ensures Encode(s[..i + 1]) == Encode(s[..i]) + EncodeByte(s[i])
  {
    assert s[..i + 1][..i] == s[..i];
    HexCountGrows(s, i + 1);
  }

  /** The general path: the buffer is filled exactly, and no index leaves it. */
  method FillEscapes(s: Bytes, t: array<Byte>)
    requires t.Length == |s| + 2 * HexCount(s)
    modifies t
    ensures t[..] == Encode(s)
  {
    var i, j := 0, 0;
    while i < |s|
      invariant i <= |s| && j == i + 2 * HexCount(s[..i]) <= t.Length
      invariant t[..j] == Encode(s[..i])
    {
      RoomForNext(s, i);
      EncodedLength(s[..i + 1]);
      j := PutByte(t, j, s[i]);
      i := i + 1;
    }
    assert s[..i] == s;
    assert t[..j] == t[..];
  }

  lemma {:induction false} NothingToEncode(s: Bytes)
    requires HexCount(s) == 0 && SPACE !in s
    ensures Encode(s) == s
  {
    if s != [] {
      NothingToEncode(s[..|s| - 1]);
      assert s == s[..|s| - 1] + [s[|s| - 1]];
    }
  }

  /** s3URLEncode: all three paths compute the same function, into a buffer of the exact size. */
  method S3UrlEncode(s: Bytes) returns (r: Bytes)
    ensures r == Encode(s) && |r| == |s| + 2 * HexCount(s)
  {
    EncodedLength(s);
    var spaceCount, hexCount := Count(s);
    if spaceCount == 0 && hexCount == 0 {
      NothingToEncode(s);
      return s;
    }
    var t := new Byte[|s| + 2 * hexCount](_ => 0);
    if hexCount == 0 {
      ReplaceSpaces(s, t);
      return t[..];
    }
    FillEscapes(s, t);
    return t[..];
  }

  // ---- Decoding

  /** The value of a hexadecimal digit of either case. */
  function HexValue(d: Byte): (v: Option<nat>)
    ensures v.Some? ==> v.value < 16
  {
    if Between('0', d, '9') then Some(d - '0' as int)
    else if Between('A', d, 'F') then Some(d - 'A' as int + 10)
    else if Between('a', d, 'f') then Some(d - 'a' as int + 10)
    else None
  }

  /** The first decoded byte and the number of bytes it was written with. */
  function DecodeHead(t: Bytes): (r: Option<(Byte, nat)>)
    requires t != []
    ensures r.Some? ==> 1 <= r.value.1 <= |t|
  {
    if t[0] == PLUS then Some((SPACE, 1))
    else if t[0] != PERCENT then Some((t[0], 1))
    else if |t| < 3 then None
    else
      match (HexValue(t[1]), HexValue(t[2]))
      case (Some(hi), Some(lo)) => Some((16 * hi + lo, 3))
      case _ => None
  }

  /** Plus and percent decoding; a malformed escape has no value. */
  function Decode(t: Bytes): Option<Bytes> {
    if t == [] then Some([])
    else
      match DecodeHead(t)
      case None => None
      case Some((c, k)) =>
        match Decode(t[k..])
        case None => None
        case Some(s) => Some([c] + s)
  }

  /** Digits of either case have the value of their position. */
  lemma {:induction false} HexValues(n: nat)
    requires n < 16
    ensures HexValue("0123456789ABCDEF"[n] as int) == Some(n) == HexValue("0123456789abcdef"[n] as int)
  {
  }

  lemma {:induction false} DecodeHeadOfCode(c: Byte, r: Bytes)
    ensures DecodeHead(EncodeByte(c) + r) == Some((c, |EncodeByte(c)|))
  {
    HexDigits(c / 16);
    HexDigits(c % 16);
    HexValues(c / 16);
    HexValues(c % 16);
    assert c == 16 * (c / 16) + c % 16;
  }

  /** The encoding read from the front. */
  lemma {:induction false} EncodeFromFront(c: Byte, s: Bytes)
    ensures Encode([c] + s) == EncodeByte(c) + Encode(s)
    decreases |s|
  {
    var all := [c] + s;
    if s == [] {
      assert all[..0] == [] && all[0] == c;
      assert EncodeByte(c) + [] == EncodeByte(c) == [] + EncodeByte(c);
    } else {
      var front, last := s[..|s| - 1], s[|s| - 1];
      EncodeFromFront(c, front);
      assert all[..|all| - 1] == [c] + front && all[|all| - 1] == last;
      Associate(EncodeByte(c), Encode(front), EncodeByte(last));
    }
  }

  /** Decoding undoes encoding. */
  lemma {:induction false} DecodeAfterEncode(s: Bytes)
    ensures Decode(Encode(s)) == Some(s)
    decreases |s|
  {
    if s != [] {
      var c, more := s[0], s[1..];
      assert s == [c] + more;
      DecodeAfterEncode(more);
      EncodeFromFront(c, more);
      DecodeHeadOfCode(c, Encode(more));
      assert (EncodeByte(c) + Encode(more))[|EncodeByte(c)|..] == Encode(more);
    }
  }

  /** Distinct names never encode alike. */
  lemma {:induction false} EncodeIsInjective(a: Bytes, b: Bytes)
    requires Encode(a) == Encode(b)
    ensures a == b
  {
    DecodeAfterEncode(a);
    DecodeAfterEncode(b);
  }

  // ---- The bytes of an encoding

  function Range(first: char, n: nat): Bytes
    requires first as int + n <= 256
  {
    seq(n, i requires 0 <= i < n => first as int + i)
  }

  /** The bytes that stand for themselves: letters, digits and five marks; the tilde is not among them. */
  const SAFE: Bytes := Range('A', 26) + Range('a', 26) + Range('0', 10) + Range('*', 1) + Range('-', 3) + Range('_', 1)

  lemma {:induction false} SafeBytes(c: Byte)
    ensures c in SAFE <==> !ShouldEscape(c)
  {
    if Between('A', c, 'Z') {
      assert SAFE[c - 'A' as int] == c;
    } else if Between('a', c, 'z') {
      assert SAFE[26 + (c - 'a' as int)] == c;
    } else if Between('0', c, '9') {
      assert SAFE[52 + (c - '0' as int)] == c;
    } else if c == '*' as int {
      assert SAFE[62] == c;
    } else if Between('-', c, '/') {
      assert SAFE[63 + (c - '-' as int)] == c;
    } else if c == '_' as int {
      assert SAFE[66] == c;
    }
  }

  predicate UpperHex(d: Byte) { Between('0', d, '9') || Between('A', d, 'F') }

  /** The digit is the one of that value in "0123456789ABCDEF". */
  lemma {:induction false} HexDigits(n: nat)
    requires n < 16
    ensures HexDigit(n) == "0123456789ABCDEF"[n] as int && UpperHex(HexDigit(n))
  {
  }

  /** The length of the code at the front. */
  function CodeLength(t: Bytes): nat
    requires t != []
  {
    if t[0] == PERCENT then 3 else 1
  }

  /** A plus sign, a safe byte, or an escape in upper case of a byte that is neither safe nor a space. */
  predicate CanonicalHead(t: Bytes)
    requires t != []
  {
    if t[0] != PERCENT then t[0] == PLUS || t[0] in SAFE
    else
      && |t| >= 3 && UpperHex(t[1]) && UpperHex(t[2])
      && var c := 16 * HexValue(t[1]).value + HexValue(t[2]).value; c !in SAFE && c != SPACE
  }

  predicate Canonical(t: Bytes) {
    t == [] || (CanonicalHead(t) && Canonical(t[CodeLength(t)..]))
  }

  lemma {:induction false} UpperHexDigit(d: Byte)
    requires UpperHex(d)
    ensures HexValue(d).Some? && HexValue(d).value < 16 && HexDigit(HexValue(d).value) == d
  {
  }

  /** The code at the front is canonical exactly if it is what encoding writes for the byte it means. */
  lemma {:induction false} CanonicalCode(t: Bytes)
    requires t != []
    ensures CanonicalHead(t) <==>
            match DecodeHead(t)
            case None => false
            case Some((c, k)) => k == CodeLength(t) && t[..k] == EncodeByte(c)
  {
    if t[0] != PERCENT {
      SafeBytes(t[0]);
      assert t[..1] == [t[0]];
    } else if |t| >= 3 {
      assert t[..3] == [t[0], t[1], t[2]];
      if UpperHex(t[1]) && UpperHex(t[2]) {
        UpperHexDigit(t[1]);
        UpperHexDigit(t[2]);
        var c := 16 * HexValue(t[1]).value + HexValue(t[2]).value;
        SafeBytes(c);
        assert c / 16 == HexValue(t[1]).value && c % 16 == HexValue(t[2]).value;
      } else if DecodeHead(t).Some? {
        var c := DecodeHead(t).value.0;
        HexDigits(c / 16);
        HexDigits(c % 16);
      }
    }
  }

  /** The canonical texts are exactly the encodings: encoding undoes decoding on them and only there. */
  lemma {:induction false} EncodeAfterDecode(t: Bytes)
    ensures Canonical(t) <==> Decode(t).Some? && Encode(Decode(t).value) == t
    decreases |t|
  {
    if t != [] {
      CanonicalCode(t);
    }
    if t != [] && DecodeHead(t).Some? {
      var (c, k) := DecodeHead(t).value;
      EncodeAfterDecode(t[k..]);
      if Decode(t[k..]).Some? {
        var s := Decode(t[k..]).value;
        assert Decode(t) == Some([c] + s);
        EncodeFromFront(c, s);
        HeadAgrees(t, k, EncodeByte(c), Encode(s));
        if |EncodeByte(c)| != k {
          HeadLength(t, c, k);
        }
      }
    }
  }

  lemma {:induction false} HeadAgrees(t: Bytes, k: nat, code: Bytes, rest: Bytes)
    requires k <= |t|
    ensures |code| == k ==> (code + rest == t <==> t[..k] == code && t[k..] == rest)
  {
    if |code| == k {
      if t[..k] == code && t[k..] == rest {
        assert t == t[..k] + t[k..];
      }
      if code + rest == t {
        assert t[..k] == code && t[k..] == rest;
      }
    }
  }

  lemma {:induction false} HeadLength(t: Bytes, c: Byte, k: nat)
    requires t != [] && DecodeHead(t) == Some((c, k)) && |EncodeByte(c)| != k
    ensures t[..k] != EncodeByte(c) && !(EncodeByte(c) <= t)
  {
  }

  lemma {:induction false} CodeAlphabet(c: Byte, b: Byte)
    requires b in EncodeByte(c)
    ensures b in SAFE || b == PERCENT || b == PLUS
  {
    SafeBytes(b);
  }

  /** An encoding holds only safe bytes, percent signs and plus signs, and leaves safe names alone. */
  lemma {:induction false} EncodedAlphabet(s: Bytes)
    ensures forall b :: b in Encode(s) ==> b in SAFE || b == PERCENT || b == PLUS
    ensures Encode(s) == s <==> forall c :: c in s ==> c in SAFE
  {
    if s != [] {
      var front, last := s[..|s| - 1], s[|s| - 1];
      assert s == front + [last];
      EncodedAlphabet(front);
      forall b | b in EncodeByte(last) ensures b in SAFE || b == PERCENT || b == PLUS {
        CodeAlphabet(last, b);
      }
      SafeBytes(last);
      EncodedLength(front);
      assert |Encode(front)| >= |front|;
      if Encode(s) == s {
        assert |EncodeByte(last)| == 1 && Encode(s)[..|front|] == Encode(front) && s[..|front|] == front;
        assert Encode(s)[|front|] == EncodeByte(last)[0];
      }
    }
  }

  // ---- Names in responses

  function Lower(c: Byte): Byte { if Between('A', c, 'Z') then c + 32 else c }

  /** The requested encoding type is "url", in any case. */
  predicate IsUrl(t: Bytes) {
    |t| == 3 && Lower(t[0]) == 'u' as int && Lower(t[1]) == 'r' as int && Lower(t[2]) == 'l' as int
  }

  function EncodeName(name: Bytes, encodingType: Bytes): Bytes {
    if IsUrl(encodingType) then Encode(name) else name
  }

  /** Names are encoded exactly if the type is "url", each letter in either case; else they stay as they are. */
  lemma {:induction false} EncodeNameExactly(name: Bytes, t: Bytes)
    ensures EncodeName(name, t) ==
            if |t| == 3 && t[0] in {117, 85} && t[1] in {114, 82} && t[2] in {108, 76} then Encode(name) else name
  {
  }

  /** Under any one encoding type, distinct names stay distinct. */
  lemma {:induction false} EncodeNameIsInjective(a: Bytes, b: Bytes, encodingType: Bytes)
    requires EncodeName(a, encodingType) == EncodeName(b, encodingType)
    ensures a == b
  {
    if IsUrl(encodingType) {
      EncodeIsInjective(a, b);
    }
  }
}
