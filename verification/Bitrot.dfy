/**
 Bitrot protection of shard files: the streaming format puts a hash in front of every block, the
 whole-file format keeps one hash beside the file. This module holds the format, its size
 formula and the stand-alone verifier.
*/
module Bitrot {
  import opened Common

  /** The size of a HighwayHash256 sum. */
  const HASH_SIZE := 32

  type Digest = d: Bytes | |d| == HASH_SIZE witness seq(HASH_SIZE, i => 0)

  /** The streaming hash: any function to 32 bytes. Nothing below assumes more about it. */
  type Hash = Bytes -> Digest

  function Min(a: int, b: int): int { if a < b then a else b }

  /** Go's integer division, which truncates toward zero. */
  function Quotient(a: int, b: int): int
    requires b > 0
  {
    if a >= 0 then a / b else -((-a) / b)
  }

  /** The quotient is the whole part of a / b: toward zero for either sign. */
  lemma {:induction false} QuotientTruncates(a: int, b: int)
    requires b > 0
    ensures a >= 0 ==> Quotient(a, b) * b <= a < Quotient(a, b) * b + b
    ensures a <= 0 ==> Quotient(a, b) * b - b < a <= Quotient(a, b) * b
  {
    if a <= 0 {
      var q := (-a) / b;
      assert Quotient(a, b) == -q && (-q) * b == -(q * b);
    }
  }

  /** ceilFrac, for a positive denominator. */
  function CeilFrac(numerator: int, denominator: int): int
    requires denominator > 0
  {
    Quotient(numerator, denominator) + if numerator > 0 && numerator % denominator != 0 then 1 else 0
  }

  /** bitrotShardFileSize for the streaming algorithm. */
  function ShardFileSize(size: int, shardSize: int): int
    requires shardSize > 0
  {
    CeilFrac(size, shardSize) * HASH_SIZE + size
  }

  lemma {:induction false} BetweenMultiples(d: int, s: int)
    requires s > 0 && -s < d * s < s
    ensures d == 0
  {
  }

  lemma {:induction false} DivUnique(n: int, s: int, q: int, m: int)
    requires s > 0 && n == q * s + m && 0 <= m < s
    ensures n / s == q && n % s == m
  {
    var q', m' := n / s, n % s;
    assert (q' - q) * s == q' * s - q * s == m - m';
    BetweenMultiples(q' - q, s);
  }

  lemma {:induction false} DivStep(n: int, s: int)
    requires s > 0
    ensures (n + s) / s == n / s + 1 && (n + s) % s == n % s
  {
    assert (n / s + 1) * s == (n / s) * s + s;
    DivUnique(n + s, s, n / s + 1, n % s);
  }

  lemma {:induction false} CeilStep(n: int, s: int)
    requires s > 0 && n > 0
    ensures CeilFrac(n, s) == 1 + CeilFrac(n - Min(s, n), s)
  {
    DivUnique(0, s, 0, 0);
    if n >= s {
      DivStep(n - s, s);
    } else {
      DivUnique(n, s, 0, n);
    }
  }

  /** The same size, counted block by block. */
  function FramedSize(n: nat, s: nat): (size: nat)
    requires s > 0
    ensures size >= n && (n > 0 ==> size >= n + HASH_SIZE)
  {
    if n == 0 then 0 else HASH_SIZE + Min(s, n) + FramedSize(n - Min(s, n), s)
  }

  /** The size formula counts the blocks. */
  lemma {:induction false} SizeFormula(n: nat, s: nat)
    requires s > 0
    ensures ShardFileSize(n, s) == FramedSize(n, s)
    decreases n
  {
    if n == 0 {
      DivUnique(0, s, 0, 0);
    } else {
      CeilStep(n, s);
      SizeFormula(n - Min(s, n), s);
    }
  }

  lemma {:induction false} NegativeSize(n: int, s: nat)
    requires s > 0 && n < 0
    ensures ShardFileSize(n, s) < 0
  {
    assert (-n) / s >= 0;
  }

  // ---- The format

  /** Each block preceded by its hash; only the last block may be short. */
  function Frame(h: Hash, data: Bytes, s: nat): Bytes
    requires s > 0
    decreases |data|
  {
    if data == [] then []
    else
      var k := Min(s, |data|);
      h(data[..k]) + data[..k] + Frame(h, data[k..], s)
  }

  lemma {:induction false} FrameLength(h: Hash, data: Bytes, s: nat)
    requires s > 0
    ensures |Frame(h, data, s)| == FramedSize(|data|, s)
    decreases |data|
  {
    if data != [] {
      FrameLength(h, data[Min(s, |data|)..], s);
    }
  }

  /** The file has exactly the size that the formula announces. */
  lemma {:induction false} FrameHasShardFileSize(h: Hash, data: Bytes, s: nat)
    requires s > 0
    ensures |Frame(h, data, s)| == ShardFileSize(|data|, s) == CeilFrac(|data|, s) * 32 + |data|
  {
    FrameLength(h, data, s);
    SizeFormula(|data|, s);
  }

  /** Block by block, `b` starts with the frame of some `n` bytes. */
  predicate Intact(h: Hash, b: Bytes, n: nat, s: nat)
    requires s > 0
    decreases n
  {
    n == 0 ||
    var k := Min(s, n);
    && |b| >= HASH_SIZE + k
    && b[..HASH_SIZE] == h(b[HASH_SIZE..HASH_SIZE + k])
    && Intact(h, b[HASH_SIZE + k..], n - k, s)
  }

  /** The data bytes between the hashes. */
  function Unframe(h: Hash, b: Bytes, n: nat, s: nat): (data: Bytes)
    requires s > 0 && Intact(h, b, n, s)
    ensures |data| == n
    decreases n
  {
    if n == 0 then []
    else
      var k := Min(s, n);
      b[HASH_SIZE..HASH_SIZE + k] + Unframe(h, b[HASH_SIZE + k..], n - k, s)
  }

  lemma {:induction false} ThreeParts(a: Bytes, b: Bytes, c: Bytes)
    ensures var all := a + b + c;
            all[..|a|] == a && all[|a|..|a| + |b|] == b && all[|a| + |b|..] == c
  {
  }

  lemma {:induction false} IntactJoins(h: Hash, b: Bytes, block: Bytes, rest: Bytes, n: nat, s: nat)
    requires s > 0 && n > 0 && |block| == Min(s, n) && b == h(block) + block + rest
    requires Intact(h, rest, n - |block|, s)
    ensures Intact(h, b, n, s) && Unframe(h, b, n, s) == block + Unframe(h, rest, n - |block|, s)
  {
    ThreeParts(h(block), block, rest);
  }

  lemma {:induction false} FramedIsIntact(h: Hash, data: Bytes, s: nat, r: Bytes)
    requires s > 0
    ensures Intact(h, Frame(h, data, s) + r, |data|, s) && Unframe(h, Frame(h, data, s) + r, |data|, s) == data
    decreases |data|
  {
    if data != [] {
      var k := Min(s, |data|);
      var block, more := data[..k], data[k..];
      FramedIsIntact(h, more, s, r);
      var rest := Frame(h, more, s) + r;
      FrameBefore(h, data, s, r, block, more, rest);
      IntactJoins(h, Frame(h, data, s) + r, block, rest, |data|, s);
    }
  }

  lemma {:induction false} FrameBefore(h: Hash, data: Bytes, s: nat, r: Bytes, block: Bytes, more: Bytes, rest: Bytes)
    requires s > 0 && data != [] && block == data[..Min(s, |data|)] && more == data[Min(s, |data|)..]
    requires rest == Frame(h, more, s) + r
    ensures Frame(h, data, s) + r == h(block) + block + rest && data == block + more
  {
    Associate(h(block) + block, Frame(h, more, s), r);
  }

  lemma {:induction false} PrefixAfter(a: Bytes, x: Bytes, y: Bytes)
    requires x <= y
    ensures a + x <= a + y
  {
  }

  lemma {:induction false} FrameOfBlock(h: Hash, block: Bytes, more: Bytes, s: nat)
    requires 0 < |block| <= s && (|block| == s || more == [])
    ensures Frame(h, block + more, s) == h(block) + block + Frame(h, more, s)
  {
    var data := block + more;
    assert data[..|block|] == block && data[|block|..] == more;
  }

  lemma {:induction false} IntactSplits(h: Hash, b: Bytes, n: nat, s: nat) returns (block: Bytes, rest: Bytes)
    requires s > 0 && n > 0 && Intact(h, b, n, s)
    ensures |block| == Min(s, n) && b == h(block) + block + rest
    ensures Intact(h, rest, n - |block|, s)
    ensures Unframe(h, b, n, s) == block + Unframe(h, rest, n - |block|, s)
  {
    var k := Min(s, n);
    block, rest := b[HASH_SIZE..HASH_SIZE + k], b[HASH_SIZE + k..];
  }

  lemma {:induction false} IntactIsFramed(h: Hash, b: Bytes, n: nat, s: nat, data: Bytes)
    requires s > 0 && Intact(h, b, n, s) && data == Unframe(h, b, n, s)
    ensures Frame(h, data, s) <= b
    decreases n
  {
    if n > 0 {
      var block, rest := IntactSplits(h, b, n, s);
      var more := Unframe(h, rest, n - |block|, s);
      IntactIsFramed(h, rest, n - |block|, s, more);
      FrameOfBlock(h, block, more, s);
      PrefixAfter(h(block) + block, Frame(h, more, s), rest);
    }
  }

  /** The first bytes of `b` are the encoding of some data of length `n`. */
  ghost predicate StartsFramed(h: Hash, b: Bytes, n: nat, s: nat)
    requires s > 0
  {
    exists data: Bytes :: |data| == n && Frame(h, data, s) <= b
  }

  lemma {:induction false} IntactIffStartsFramed(h: Hash, b: Bytes, n: nat, s: nat)
    requires s > 0
    ensures Intact(h, b, n, s) <==> StartsFramed(h, b, n, s)
  {
    if Intact(h, b, n, s) {
      IntactIsFramed(h, b, n, s, Unframe(h, b, n, s));
    }
    forall data: Bytes | |data| == n && Frame(h, data, s) <= b ensures Intact(h, b, n, s) {
      var f := Frame(h, data, s);
      assert b == f + b[|f|..];
      FramedIsIntact(h, data, s, b[|f|..]);
    }
  }

  // ---- The verifier

  /**
   Some hash is there and does not match the bytes behind it, as many as there are of its block,
   while all blocks before it are intact.
  */
  predicate BadHash(h: Hash, b: Bytes, n: nat, s: nat)
    requires s > 0
    decreases n
  {
    n > 0 && |b| >= HASH_SIZE &&
    var k := Min(s, n);
    var read := Min(k, |b| - HASH_SIZE);
    b[..HASH_SIZE] != h(b[HASH_SIZE..HASH_SIZE + read]) || (read == k && BadHash(h, b[HASH_SIZE + k..], n - k, s))
  }

  datatype Outcome = Accepted | FileCorrupt | ReadFailed

  /** What becomes of a stream that should hold n bytes of data. */
  function Verdict(h: Hash, b: Bytes, n: nat, s: nat): Outcome
    requires s > 0
    decreases n
  {
    if n == 0 then Accepted
    else if |b| < HASH_SIZE then ReadFailed
    else
      var k := Min(s, n);
      var read := Min(k, |b| - HASH_SIZE);
      if b[..HASH_SIZE] != h(b[HASH_SIZE..HASH_SIZE + read]) then FileCorrupt
      else if read < k then ReadFailed
      else Verdict(h, b[HASH_SIZE + k..], n - k, s)
  }

  lemma {:induction false} VerdictMeans(h: Hash, b: Bytes, n: nat, s: nat)
    requires s > 0
    ensures Verdict(h, b, n, s) == Accepted <==> Intact(h, b, n, s)
    ensures Verdict(h, b, n, s) == FileCorrupt <==> BadHash(h, b, n, s)
    decreases n
  {
    var k := Min(s, n);
    if n > 0 && |b| >= HASH_SIZE + k {
      VerdictMeans(h, b[HASH_SIZE + k..], n - k, s);
    }
  }

  /**
   One block of bitrotVerify, after its hash was found to be there: `rem` bytes of data are still
   expected. The block is cut to what is left; what is left never becomes negative, and only the
   last block is smaller than the shard size.
  */
  method VerifyBlock(h: Hash, r: Bytes, pos: nat, left: nat, shard: nat, ghost rem: nat, ghost shardSize: nat)
      returns (ok: bool, pos': nat, left': nat, shard': nat)
    requires shardSize > 0 && rem > 0 && pos + HASH_SIZE <= |r|
    requires left == FramedSize(rem, shardSize) && shard == shardSize
    ensures var k := Min(shardSize, rem); var at := pos + HASH_SIZE; var read := Min(k, |r| - at);
            && (ok <==> h(r[at..at + read]) == r[pos..at])
            && pos' == at + read && shard' == k && left' < left
            && (read < k ==> left' > 0 && pos' == |r|)
            && (read == k ==> left' == FramedSize(rem - k, shardSize))
  {
    var hashBuf := r[pos..pos + HASH_SIZE];
    pos', left', shard' := pos + HASH_SIZE, left - HASH_SIZE, shard;
    if left' < shard' {
      shard' := left';
    }
    ShardToRead(rem, shardSize);
    var read := Min(shard', |r| - pos');
    var buf := r[pos'..pos' + read];
    pos', left' := pos' + read, left' - read;
    ok := h(buf) == hashBuf;
  }

  /** One block, with `read` of its k bytes there, settles the stream or leaves it to the rest. */
  lemma {:induction false} BlockDecides(h: Hash, r: Bytes, pos: nat, n: nat, s: nat, k: nat, read: nat)
    requires s > 0 && n > 0 && pos + HASH_SIZE <= |r| && k == Min(s, n) && read == Min(k, |r| - pos - HASH_SIZE)
    ensures var at := pos + HASH_SIZE;
            Verdict(h, r[pos..], n, s) ==
              if h(r[at..at + read]) != r[pos..at] then FileCorrupt
              else if read < k then ReadFailed
              else Verdict(h, r[at + k..], n - k, s)
  {
    var b := r[pos..];
    assert b[..HASH_SIZE] == r[pos..pos + HASH_SIZE];
    assert b[HASH_SIZE..HASH_SIZE + read] == r[pos + HASH_SIZE..pos + HASH_SIZE + read];
    if read == k {
      assert b[HASH_SIZE + k..] == r[pos + HASH_SIZE + k..];
    }
  }

  /** What is left behind the hash limits the block exactly as the data still expected does. */
  lemma {:induction false} ShardToRead(rem: nat, s: nat)
    requires s > 0 && rem > 0
    ensures Min(s, FramedSize(rem, s) - HASH_SIZE) == Min(s, rem)
    ensures FramedSize(rem, s) - HASH_SIZE - Min(s, rem) == FramedSize(rem - Min(s, rem), s)
  {
  }

  /** The block loop of bitrotVerify, for a stream that should hold `partSize` bytes of data. */
  method VerifyBlocks(h: Hash, r: Bytes, partSize: nat, shardSize: nat) returns (res: Outcome)
    requires shardSize > 0
    ensures res == Verdict(h, r, partSize, shardSize)
    ensures res == Accepted <==> Intact(h, r, partSize, shardSize)
    ensures res == FileCorrupt <==> BadHash(h, r, partSize, shardSize)
  {
    VerdictMeans(h, r, partSize, shardSize);
    res := VerifyLoop(h, r, partSize, shardSize);
  }

  /** One pass of the loop: the verdict is there, or is that on the rest. */
  method VerifyNext(h: Hash, r: Bytes, pos: nat, left: nat, shard: nat, ghost rem: nat, ghost shardSize: nat)
      returns (ok: bool, pos': nat, left': nat, shard': nat, ghost rem': nat, ghost short: bool)
    requires shardSize > 0 && rem > 0 && pos + HASH_SIZE <= |r|
    requires left == FramedSize(rem, shardSize) && shard == shardSize
    ensures pos' <= |r| && left' < left
    ensures !ok ==> Verdict(h, r[pos..], rem, shardSize) == FileCorrupt
    ensures ok && short ==> left' > 0 && pos' == |r| && Verdict(h, r[pos..], rem, shardSize) == ReadFailed
    ensures ok && !short ==> left' == FramedSize(rem', shardSize) && (rem' > 0 ==> shard' == shardSize)
    ensures ok && !short ==> Verdict(h, r[pos..], rem, shardSize) == Verdict(h, r[pos'..], rem', shardSize)
  {
    ghost var k := Min(shardSize, rem);
    ghost var read := Min(k, |r| - pos - HASH_SIZE);
    BlockDecides(h, r, pos, rem, shardSize, k, read);
    ok, pos', left', shard' := VerifyBlock(h, r, pos, left, shard, rem, shardSize);
    short := read < k;
    rem' := if short then rem else rem - k;
  }

  method VerifyLoop(h: Hash, r: Bytes, partSize: nat, shardSize: nat) returns (res: Outcome)
    requires shardSize > 0
    ensures res == Verdict(h, r, partSize, shardSize)
  {
    var left, shard, pos: nat := FramedSize(partSize, shardSize), shardSize, 0;
    ghost var verdict := Verdict(h, r, partSize, shardSize);
    ghost var rem: nat := partSize;    // data bytes still expected
    ghost var short := false;          // the stream ended inside a block
    assert r[0..] == r;
    while left > 0
      invariant pos <= |r|
      invariant short ==> left > 0 && pos == |r| && verdict == ReadFailed
      invariant !short ==> left == FramedSize(rem, shardSize) && (rem > 0 ==> shard == shardSize)
      invariant !short ==> verdict == Verdict(h, r[pos..], rem, shardSize)
      decreases left
    {
      if |r| - pos < HASH_SIZE {
        return ReadFailed;
      }
      var ok;
      ok, pos, left, shard, rem, short := VerifyNext(h, r, pos, left, shard, rem, shardSize);
      if !ok {
        return FileCorrupt;
      }
    }
    return Accepted;
  }

  /**
   bitrotVerify for the streaming algorithm, over a stream of bytes. It accepts exactly when the
   wanted size is the framed size of the part and, for a part that is not empty, the stream
   starts with the encoding of some data of the part's length. Otherwise it reports a corrupt file
   exactly for a wrong size or a hash that does not match, and a failed read for a stream that ends.
  */
  method BitrotVerify(h: Hash, r: Bytes, wantSize: int, partSize: int, shardSize: nat) returns (res: Outcome)
    requires shardSize > 0
    ensures res == Accepted <==>
            wantSize == ShardFileSize(partSize, shardSize) &&
            (partSize <= 0 || StartsFramed(h, r, partSize, shardSize))
    ensures res == FileCorrupt <==>
            wantSize != ShardFileSize(partSize, shardSize) || (partSize > 0 && BadHash(h, r, partSize, shardSize))
  {
    if wantSize != ShardFileSize(partSize, shardSize) {
      return FileCorrupt;
    }
    if partSize < 0 {
      // A negative size passes: the loop has nothing to read.
      NegativeSize(partSize, shardSize);
      return Accepted;
    }
    SizeFormula(partSize, shardSize);
    IntactIffStartsFramed(h, r, partSize, shardSize);
    res := VerifyBlocks(h, r, partSize, shardSize);
  }
}
