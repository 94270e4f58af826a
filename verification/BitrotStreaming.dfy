/**
 The streaming bitrot writer and reader: the writer puts the hash of every block it is given in
 front of it, the reader checks one hash per ReadAt call, on a stream opened by the first call.
*/
module BitrotStreaming {
  import opened Common
  import opened Bitrot

  // ---- Writer

  /** What the sink does with the two writes of one block. */
  datatype Fault = NoFault | HashFails | BlockFails

  class StreamingBitrotWriter {
    const h: Hash
    var out: Bytes

    constructor (h: Hash)
      ensures this.h == h && out == []
    {
      this.h, out := h, [];
    }

    method Write(p: Bytes, fault: Fault) returns (n: nat, ok: bool)
      modifies this
      ensures out == old(out) + Written(h, p, fault)
      ensures out == old(out) + (if p == [] || fault == HashFails then []
                                 else if fault == BlockFails then h(p) else h(p) + p)
      ensures ok <==> p == [] || fault == NoFault
      ensures n == if ok then |p| else 0
    {
      if |p| == 0 {
        return 0, true;
      }
      var hashBytes := h(p);
      if fault == HashFails {
        return 0, false;
      }
      out := out + hashBytes;
      if fault == BlockFails {
        return 0, false;
      }
      Associate(out, hashBytes, p);
      out := out + p;
      return |p|, true;
    }
  }

  /** The bytes that one Write call adds to the file. */
  function Written(h: Hash, p: Bytes, fault: Fault): Bytes {
    if p == [] || fault == HashFails then []
    else if fault == BlockFails then h(p)
    else h(p) + p
  }

  function WriteAll(h: Hash, blocks: seq<Bytes>): Bytes {
    if blocks == [] then [] else Written(h, blocks[0], NoFault) + WriteAll(h, blocks[1..])
  }

  function Flatten(blocks: seq<Bytes>): Bytes {
    if blocks == [] then [] else blocks[0] + Flatten(blocks[1..])
  }

  /** All blocks are full, but the last may be shorter; empty writes may occur at the end. */
  predicate BlockSized(blocks: seq<Bytes>, s: nat) {
    && (forall i :: 0 <= i < |blocks| ==> |blocks[i]| <= s)
    && (forall i, j :: 0 <= i < j < |blocks| && |blocks[i]| < s ==> blocks[j] == [])
  }

  lemma {:induction false} EmptyBlocks(blocks: seq<Bytes>)
    requires forall i :: 0 <= i < |blocks| ==> blocks[i] == []
    ensures Flatten(blocks) == []
  {
    if blocks != [] {
      EmptyBlocks(blocks[1..]);
    }
  }

  /** Writing data block by block produces the frame of the data. */
  lemma {:induction false} WritesAreFramed(h: Hash, blocks: seq<Bytes>, s: nat)
    requires s > 0 && BlockSized(blocks, s)
    ensures WriteAll(h, blocks) == Frame(h, Flatten(blocks), s)
  {
    if blocks != [] {
      var block, more := blocks[0], blocks[1..];
      assert BlockSized(more, s);
      WritesAreFramed(h, more, s);
      if |block| < s {
        assert forall i :: 0 <= i < |more| ==> more[i] == blocks[i + 1] == [];
        EmptyBlocks(more);
      }
      if block == [] {
        assert block + Flatten(more) == Flatten(more);
      } else {
        FrameOfBlock(h, block, Flatten(more), s);
      }
    }
  }

  /** All data can be written that way, for every shard size. */
  lemma {:induction false} InBlocks(data: Bytes, s: nat) returns (blocks: seq<Bytes>)
    requires s > 0
    ensures BlockSized(blocks, s) && Flatten(blocks) == data && [] !in blocks && (data == [] ==> blocks == [])
    decreases |data|
  {
    if data == [] {
      blocks := [];
    } else {
      var k := Min(s, |data|);
      var more := InBlocks(data[k..], s);
      blocks := [data[..k]] + more;
    }
  }

  // ---- Reader

  datatype ReadError = ErrUnexpected | ErrOpen | ErrShort | ErrFileCorrupt

  /** `disk` is the file, if it can be opened; `data` the inline copy, if there is one. */
  datatype Reader = Reader(disk: Option<Bytes>, data: Bytes, tillOffset: int, currOffset: int, rc: Option<Bytes>)

  /** newStreamingBitrotReader: the end offset is moved behind the hashes. */
  function NewReader(disk: Option<Bytes>, data: Bytes, till: int, s: nat): Reader
    requires s > 0
  {
    Reader(disk, data, ShardFileSize(till, s), 0, None)
  }

  /** The part of `b` that a section or file reader over [off, off+len) delivers. */
  function Window(b: Bytes, off: nat, len: int): Bytes {
    if off >= |b| || len <= 0 then [] else b[off..Min(|b|, off + len)]
  }

  function StreamOffset(offset: int, s: nat): int
    requires s > 0
  {
    Quotient(offset, s) * HASH_SIZE + offset
  }

  /** The first ReadAt call opens the stream at its own offset. */
  function Opened(rd: Reader, offset: int, s: nat): Result<Reader, ReadError>
    requires s > 0
  {
    if rd.rc.Some? then Ok(rd)
    else
      var at := StreamOffset(offset, s);
      if at < 0 then Err(ErrOpen)
      else if |rd.data| == 0 && rd.tillOffset != at then
        match rd.disk
        case None => Err(ErrOpen)
        case Some(file) => Ok(rd.(currOffset := offset, rc := Some(Window(file, at, rd.tillOffset - at))))
      else Ok(rd.(currOffset := offset, rc := Some(Window(rd.data, at, rd.tillOffset - at))))
  }

  /** ReadAt into a buffer of n bytes: the reader afterwards, and the bytes or the error. */
  function ReadStep(h: Hash, s: nat, rd: Reader, n: nat, offset: int): (Reader, Result<Bytes, ReadError>)
    requires s > 0
  {
    if offset % s != 0 then (rd, Err(ErrUnexpected))
    else match Opened(rd, offset, s)
      case Err(e) => (rd.(currOffset := offset), Err(e))
      case Ok(open) => ReadBlock(h, open, n, offset)
  }

  function ReadBlock(h: Hash, open: Reader, n: nat, offset: int): (Reader, Result<Bytes, ReadError>)
    requires open.rc.Some?
  {
    var b := open.rc.value;
    if offset != open.currOffset then (open, Err(ErrUnexpected))
    else if |b| < HASH_SIZE + n then (open.(rc := Some([])), Err(ErrShort))
    else
      var hashBytes, buf, rest := b[..HASH_SIZE], b[HASH_SIZE..HASH_SIZE + n], b[HASH_SIZE + n..];
      if h(buf) != hashBytes then (open.(rc := Some(rest)), Err(ErrFileCorrupt))
      else (open.(rc := Some(rest), currOffset := open.currOffset + n), Ok(buf))
  }

  class StreamingBitrotReader {
    const h: Hash
    const s: nat
    const disk: Option<Bytes>
    const data: Bytes
    const tillOffset: int
    var currOffset: int
    var rc: Option<Bytes>

    ghost predicate Valid() { s > 0 }

    constructor (h: Hash, s: nat, disk: Option<Bytes>, data: Bytes, till: int)
      requires s > 0
      ensures Valid() && this.h == h && this.s == s && Now() == NewReader(disk, data, till, s)
    {
      this.h, this.s, this.disk, this.data := h, s, disk, data;
      tillOffset := CeilFrac(till, s) * HASH_SIZE + till;
      currOffset, rc := 0, None;
    }

    ghost function Now(): Reader
      reads this
    {
      Reader(disk, data, tillOffset, currOffset, rc)
    }

    /** Opens the stream at `offset`, unless it is open already. */
    method OpenStream(offset: int) returns (ok: bool)
      requires Valid()
      modifies this
      ensures ok ==> Opened(old(Now()), offset, s) == Ok(Now())
      ensures !ok ==> Opened(old(Now()), offset, s) == Err(ErrOpen) && Now() == old(Now()).(currOffset := offset)
    {
      if rc == None {
        currOffset := offset;
        var streamOffset := StreamOffset(offset, s);
        if streamOffset < 0 {
          return false;
        }
        if |data| == 0 && tillOffset != streamOffset {
          if disk == None {
            return false;
          }
          rc := Some(Window(disk.value, streamOffset, tillOffset - streamOffset));
        } else {
          rc := Some(Window(data, streamOffset, tillOffset - streamOffset));
        }
      }
      return true;
    }

    /** Reads a hash and a block from the open stream and compares. */
    method ReadVerified(n: nat, offset: int) returns (r: Result<Bytes, ReadError>)
      requires Valid() && rc.Some?
      modifies this
      ensures (Now(), r) == ReadBlock(h, old(Now()), n, offset)
    {
      if offset != currOffset {
        return Err(ErrUnexpected);
      }
      var b := rc.value;
      if |b| < HASH_SIZE {
        rc := Some([]);
        return Err(ErrShort);
      }
      var hashBytes := b[..HASH_SIZE];
      if |b| - HASH_SIZE < n {
        rc := Some([]);
        return Err(ErrShort);
      }
      var buf := b[HASH_SIZE..HASH_SIZE + n];
      rc := Some(b[HASH_SIZE + n..]);
      if h(buf) != hashBytes {
        return Err(ErrFileCorrupt);
      }
      currOffset := currOffset + n;
      return Ok(buf);
    }

    method ReadAt(n: nat, offset: int) returns (r: Result<Bytes, ReadError>)
      requires Valid()
      modifies this
      ensures (Now(), r) == ReadStep(h, s, old(Now()), n, offset)
    {
      if offset % s != 0 {
        return Err(ErrUnexpected);
      }
      var ok := OpenStream(offset);
      if !ok {
        return Err(ErrOpen);
      }
      r := ReadVerified(n, offset);
    }
  }

  // ---- Sequential runs of block-sized reads

  /** One result in front of the next; the first error counts. */
  function Then<E>(first: Result<Bytes, E>, more: Result<Bytes, E>): Result<Bytes, E> {
    if first.Err? then first else if more.Err? then more else Ok(first.value + more.value)
  }

  /** Reads [offset, end) block by block, until a read fails. */
  function ReadRange<R, E>(
      read: (R, nat, int) -> (R, Result<Bytes, E>), rd: R, s: nat, offset: int, end: int): Result<Bytes, E>
    requires s > 0
    decreases end - offset
  {
    if offset >= end then Ok([])
    else
      var n := Min(s, end - offset);
      var out := read(rd, n, offset);
      if out.1.Err? then out.1 else Then(out.1, ReadRange(read, out.0, s, offset + n, end))
  }

  /** The reading function of a streaming reader with block size s. */
  function Reading(h: Hash, s: nat): (Reader, nat, int) -> (Reader, Result<Bytes, ReadError>)
    requires s > 0
  {
    (rd, n, offset) => ReadStep(h, s, rd, n, offset)
  }

  /** A complete block does not match its hash, while all blocks before it are intact. */
  predicate BadBlock(h: Hash, b: Bytes, n: nat, s: nat)
    requires s > 0
    decreases n
  {
    n > 0 &&
    var k := Min(s, n);
    && |b| >= HASH_SIZE + k
    && (b[..HASH_SIZE] != h(b[HASH_SIZE..HASH_SIZE + k]) || BadBlock(h, b[HASH_SIZE + k..], n - k, s))
  }

  /** One read from an open stream at its own offset: the bytes, or the error, and why. */
  lemma {:induction false} BlockOutcome(h: Hash, rd: Reader, w: Bytes, n: nat)
    requires rd.rc == Some(w)
    ensures var (rd', r) := ReadBlock(h, rd, n, rd.currOffset);
            if |w| < HASH_SIZE + n then r == Err(ErrShort) && rd'.rc == Some([])
            else
              var block := w[HASH_SIZE..HASH_SIZE + n];
              && rd'.rc == Some(w[HASH_SIZE + n..])
              && if w[..HASH_SIZE] != h(block) then r == Err(ErrFileCorrupt)
                 else r == Ok(block) && rd'.currOffset == rd.currOffset + n
  {
  }

  /** A read at any other offset of an open stream, or at an unaligned one, is refused. */
  lemma {:induction false} WrongOffsetIsRefused(h: Hash, s: nat, rd: Reader, n: nat, offset: int)
    requires s > 0 && (offset % s != 0 || (rd.rc.Some? && offset != rd.currOffset))
    ensures ReadStep(h, s, rd, n, offset) == (rd, Err(ErrUnexpected))
  {
  }

  type Read = (Reader, nat, int) -> (Reader, Result<Bytes, ReadError>)

  /** What one read of n bytes gives on an open stream that stands at `offset` and holds `w`. */
  ghost predicate BlockRead(h: Hash, w: Bytes, n: nat, offset: int, out: (Reader, Result<Bytes, ReadError>)) {
    if |w| < HASH_SIZE + n then out.1 == Err(ErrShort)
    else
      var block := w[HASH_SIZE..HASH_SIZE + n];
      && out.0.rc == Some(w[HASH_SIZE + n..])
      && if w[..HASH_SIZE] != h(block) then out.1 == Err(ErrFileCorrupt)
         else out.1 == Ok(block) && out.0.currOffset == offset + n
  }

  ghost predicate ReadsBlocks(h: Hash, read: Read) {
    forall rd: Reader, n: nat, offset: int :: rd.rc.Some? && rd.currOffset == offset ==>
      BlockRead(h, rd.rc.value, n, offset, read(rd, n, offset))
  }

  /** Reading from an open stream, without the test for alignment. */
  function BlockReading(h: Hash): Read {
    (rd: Reader, n, offset) => if rd.rc.Some? then ReadBlock(h, rd, n, offset) else (rd, Err(ErrOpen))
  }

  lemma {:induction false} BlockReadingReadsBlocks(h: Hash)
    ensures ReadsBlocks(h, BlockReading(h))
  {
    forall rd: Reader, n: nat, offset: int | rd.rc.Some? && rd.currOffset == offset
      ensures BlockRead(h, rd.rc.value, n, offset, BlockReading(h)(rd, n, offset))
    {
      BlockOutcome(h, rd, rd.rc.value, n);
    }
  }

  /** A run is its first read and the run after it. */
  lemma {:induction false} RangeUnfolds<R, E>(
      read: (R, nat, int) -> (R, Result<Bytes, E>), rd: R, s: nat, offset: int, end: int, n: nat, rd': R)
    requires s > 0 && offset < end && n == Min(s, end - offset) && read(rd, n, offset).0 == rd'
    ensures var first := read(rd, n, offset).1;
            ReadRange(read, rd, s, offset, end) ==
            if first.Err? then first else Then(first, ReadRange(read, rd', s, offset + n, end))
  {
  }

  lemma {:induction false} OneRead(h: Hash, s: nat, rd: Reader, n: nat, offset: int)
    requires s > 0 && offset % s == 0 && rd.rc.Some?
    ensures Reading(h, s)(rd, n, offset) == BlockReading(h)(rd, n, offset) == ReadBlock(h, rd, n, offset)
    ensures ReadBlock(h, rd, n, offset).0.rc.Some?
  {
  }

  /** From an aligned offset on, the test for alignment never refuses a block-sized read. */
  lemma {:induction false} RangeStaysAligned(h: Hash, s: nat, rd: Reader, offset: int, end: int)
    requires s > 0 && (offset < end ==> offset % s == 0) && rd.rc.Some?
    ensures ReadRange(Reading(h, s), rd, s, offset, end) == ReadRange(BlockReading(h), rd, s, offset, end)
    decreases end - offset
  {
    if offset < end {
      var k := Min(s, end - offset);
      var next := offset + k;
      var rd' := ReadBlock(h, rd, k, offset).0;
      OneRead(h, s, rd, k, offset);
      if next < end {
        DivStep(offset, s);
      }
      RangeStaysAligned(h, s, rd', next, end);
      RangeUnfolds(Reading(h, s), rd, s, offset, end, k, rd');
      RangeUnfolds(BlockReading(h), rd, s, offset, end, k, rd');
    }
  }

  /** What reading n bytes of data block by block from `w` gives. */
  function Blocks(h: Hash, w: Bytes, n: nat, s: nat): Result<Bytes, ReadError>
    requires s > 0
    decreases n
  {
    if n == 0 then Ok([])
    else
      var k := Min(s, n);
      if |w| < HASH_SIZE + k then Err(ErrShort)
      else if w[..HASH_SIZE] != h(w[HASH_SIZE..HASH_SIZE + k]) then Err(ErrFileCorrupt)
      else
        Then(Ok(w[HASH_SIZE..HASH_SIZE + k]), Blocks(h, w[HASH_SIZE + k..], n - k, s))
  }

  lemma {:induction false} BlocksMeans(h: Hash, w: Bytes, n: nat, s: nat)
    requires s > 0
    ensures Blocks(h, w, n, s).Ok? <==> Intact(h, w, n, s)
    ensures Intact(h, w, n, s) ==> Blocks(h, w, n, s) == Ok(Unframe(h, w, n, s))
    ensures Blocks(h, w, n, s) == Err(ErrFileCorrupt) <==> BadBlock(h, w, n, s)
    decreases n
  {
    var k := Min(s, n);
    if n > 0 && |w| >= HASH_SIZE + k {
      BlocksMeans(h, w[HASH_SIZE + k..], n - k, s);
    }
  }

  lemma {:induction false} RangeOfBlocks(
      h: Hash, s: nat, read: Read, rd: Reader, w: Bytes, offset: int, end: int, n: nat)
    requires s > 0 && end == offset + n && rd.rc == Some(w) && rd.currOffset == offset && ReadsBlocks(h, read)
    ensures ReadRange(read, rd, s, offset, end) == Blocks(h, w, n, s)
    decreases n
  {
    if n > 0 {
      var k := Min(s, n);
      var out := read(rd, k, offset);
      assert BlockRead(h, w, k, offset, out);
      if out.1.Ok? {
        RangeOfBlocks(h, s, read, out.0, w[HASH_SIZE + k..], offset + k, end, n - k);
      }
      RangeUnfolds(read, rd, s, offset, end, k, out.0);
    }
  }

  lemma {:induction false} OpenRange(h: Hash, s: nat, rd: Reader, w: Bytes, offset: int, n: nat)
    requires s > 0 && offset % s == 0 && rd.rc == Some(w) && rd.currOffset == offset
    ensures ReadRange(Reading(h, s), rd, s, offset, offset + n) == Blocks(h, w, n, s)
  {
    RangeStaysAligned(h, s, rd, offset, offset + n);
    BlockReadingReadsBlocks(h);
    RangeOfBlocks(h, s, BlockReading(h), rd, w, offset, offset + n, n);
  }

  /** On an open stream, reading n more bytes succeeds exactly if they are intact, and yields them. */
  lemma {:induction false} OpenRangeReads(h: Hash, s: nat, rd: Reader, w: Bytes, offset: int, n: nat)
    requires s > 0 && offset % s == 0 && rd.rc == Some(w) && rd.currOffset == offset
    ensures var r := ReadRange(Reading(h, s), rd, s, offset, offset + n);
            && (r.Ok? <==> Intact(h, w, n, s))
            && (r.Ok? ==> r.value == Unframe(h, w, n, s))
  {
    OpenRange(h, s, rd, w, offset, n);
    BlocksMeans(h, w, n, s);
  }

  /** A sequential run on an open stream reports a corrupt file exactly for a block that does not match. */
  lemma {:induction false} CorruptRangeIsReported(h: Hash, s: nat, rd: Reader, w: Bytes, offset: int, n: nat)
    requires s > 0 && offset % s == 0 && rd.rc == Some(w) && rd.currOffset == offset
    ensures ReadRange(Reading(h, s), rd, s, offset, offset + n) == Err(ErrFileCorrupt) <==> BadBlock(h, w, n, s)
  {
    OpenRange(h, s, rd, w, offset, n);
    BlocksMeans(h, w, n, s);
  }

  /** Opening first does not change what is read. */
  lemma {:induction false} RangeOpens(h: Hash, s: nat, rd: Reader, open: Reader, offset: int, end: int)
    requires s > 0 && offset % s == 0 && offset < end && Opened(rd, offset, s) == Ok(open)
    ensures ReadRange(Reading(h, s), rd, s, offset, end) == ReadRange(Reading(h, s), open, s, offset, end)
  {
  }

  lemma {:induction false} FrameSplits(h: Hash, a: Bytes, b: Bytes, s: nat)
    requires s > 0 && |a| % s == 0
    ensures Frame(h, a + b, s) == Frame(h, a, s) + Frame(h, b, s)
    decreases |a|
  {
    if a == [] {
      assert a + b == b;
    } else {
      AtLeastOneBlock(|a|, s);
      var block, more := a[..s], a[s..];
      FrameSplits(h, more, b, s);
      assert a == block + more;
      Associate(block, more, b);
      FrameOfBlock(h, block, more, s);
      FrameOfBlock(h, block, more + b, s);
      Associate(h(block) + block, Frame(h, more, s), Frame(h, b, s));
    }
  }

  lemma {:induction false} AtLeastOneBlock(n: nat, s: nat)
    requires s > 0 && n > 0 && n % s == 0
    ensures n >= s && (n - s) % s == 0
  {
    if n < s {
      DivUnique(n, s, 0, n);
    }
    DivStep(n - s, s);
  }

  lemma {:induction false} AlignedOffset(h: Hash, data: Bytes, o: nat, s: nat)
    requires s > 0 && o <= |data| && o % s == 0
    ensures StreamOffset(o, s) == |Frame(h, data[..o], s)|
  {
    FrameHasShardFileSize(h, data[..o], s);
  }

  lemma {:induction false} WindowBetween(a: Bytes, b: Bytes, c: Bytes)
    ensures Window(a + b + c, |a|, |b|) == b
  {
  }

  /** The reader has the file inline, or finds it on its disk. */
  predicate Holds(rd: Reader, file: Bytes) { rd.data == file || (rd.data == [] && rd.disk == Some(file)) }

  /** A read may end at a block boundary or at the end of the data. */
  predicate Readable(data: Bytes, o: nat, t: nat, s: nat)
    requires s > 0
  {
    o <= t <= |data| && o % s == 0 && (t % s == 0 || t == |data|)
  }

  lemma {:induction false} FrameInThree(h: Hash, data: Bytes, o: nat, t: nat, s: nat)
    requires s > 0 && Readable(data, o, t, s)
    ensures Frame(h, data[..t], s) == Frame(h, data[..o], s) + Frame(h, data[o..t], s)
    ensures Frame(h, data, s) == Frame(h, data[..t], s) + Frame(h, data[t..], s)
  {
    assert data[..t] == data[..o] + data[o..t] && data == data[..t] + data[t..];
    FrameSplits(h, data[..o], data[o..t], s);
    if t % s == 0 {
      FrameSplits(h, data[..t], data[t..], s);
    } else {
      assert data[t..] == [] && data[..t] == data;
    }
  }

  /** The window that the first read opens is the frame of the requested slice. */
  lemma {:induction false} WindowIsFramed(h: Hash, data: Bytes, o: nat, t: nat, s: nat, x: Bytes)
    requires s > 0 && Readable(data, o, t, s)
    ensures var at := StreamOffset(o, s); var w := Frame(h, data[o..t], s);
            && 0 <= at
            && ShardFileSize(t, s) - at == |w|
            && Window(Frame(h, data, s) + x, at, |w|) == w
  {
    var fa, fb, fc := Frame(h, data[..o], s), Frame(h, data[o..t], s), Frame(h, data[t..], s);
    FrameInThree(h, data, o, t, s);
    FrameHasShardFileSize(h, data[..t], s);
    AlignedOffset(h, data, o, s);
    Associate(fa + fb, fc, x);
    WindowBetween(fa, fb, fc + x);
  }

  lemma {:induction false} OpensAtTheSlice(h: Hash, data: Bytes, o: nat, t: nat, s: nat, x: Bytes, rd: Reader)
    requires s > 0 && Readable(data, o, t, s) && o < t
    requires rd == NewReader(rd.disk, rd.data, t, s) && Holds(rd, Frame(h, data, s) + x)
    ensures Opened(rd, o, s) == Ok(rd.(currOffset := o, rc := Some(Frame(h, data[o..t], s))))
  {
    WindowIsFramed(h, data, o, t, s, x);
    FrameLength(h, data[o..t], s);
    FrameLength(h, data, s);
  }

  /** A stream that holds exactly a framed slice delivers it. */
  lemma {:induction false} OpenReadsFramed(h: Hash, s: nat, open: Reader, slice: Bytes, w: Bytes, offset: int, end: int)
    requires s > 0 && offset % s == 0 && end == offset + |slice|
    requires w == Frame(h, slice, s) && open.rc == Some(w) && open.currOffset == offset
    ensures ReadRange(Reading(h, s), open, s, offset, end) == Ok(slice)
  {
    FramedIsIntact(h, slice, s, []);
    assert w + [] == w;
    OpenRangeReads(h, s, open, w, offset, |slice|);
  }

  lemma {:induction false} FreshReadsFramed(
      h: Hash, s: nat, rd: Reader, open: Reader, slice: Bytes, offset: int, end: int)
    requires s > 0 && offset % s == 0 && offset < end == offset + |slice|
    requires open.rc == Some(Frame(h, slice, s)) && open.currOffset == offset
    requires Opened(rd, offset, s) == Ok(open)
    ensures ReadRange(Reading(h, s), rd, s, offset, end) == Ok(slice)
  {
    OpenReadsFramed(h, s, open, slice, open.rc.value, offset, end);
    RangeOpens(h, s, rd, open, offset, end);
  }

  /**
   A sequential run of block-sized reads from any aligned offset to any readable end returns
   exactly that slice of the data, whether the framed bytes, with anything after them, come from
   the disk or inline.
  */
  lemma {:induction false} SequentialReadReturnsTheSlice(
      h: Hash, data: Bytes, o: nat, t: nat, s: nat, x: Bytes, rd: Reader)
    requires s > 0 && o <= t <= |data| && o % s == 0 && (t % s == 0 || t == |data|)
    requires rd == NewReader(rd.disk, rd.data, t, s)
    requires var file := Frame(h, data, s) + x; rd.data == file || (rd.data == [] && rd.disk == Some(file))
    ensures ReadRange(Reading(h, s), rd, s, o, t) == Ok(data[o..t])
  {
    var slice := data[o..t];
    if slice != [] {
      OpensAtTheSlice(h, data, o, t, s, x, rd);
      var open := rd.(currOffset := o, rc := Some(Frame(h, slice, s)));
      FreshReadsFramed(h, s, rd, open, slice, o, t);
    }
  }

  lemma {:induction false} IntactInWindow(h: Hash, file: Bytes, n: nat, s: nat)
    requires s > 0
    ensures Intact(h, Window(file, 0, FramedSize(n, s)), n, s) <==> Intact(h, file, n, s)
  {
    var w := Window(file, 0, FramedSize(n, s));
    IntactIffStartsFramed(h, w, n, s);
    IntactIffStartsFramed(h, file, n, s);
    assert w <= file;
    forall data: Bytes | |data| == n && Frame(h, data, s) <= file ensures Frame(h, data, s) <= w {
      FrameLength(h, data, s);
    }
  }

  lemma {:induction false} OpensAtStart(file: Bytes, n: nat, s: nat)
    requires s > 0 && n > 0
    ensures var rd := NewReader(Some(file), [], n, s);
            Opened(rd, 0, s) == Ok(rd.(currOffset := 0, rc := Some(Window(file, 0, FramedSize(n, s)))))
  {
    SizeFormula(n, s);
    DivUnique(0, s, 0, 0);
  }

  /**
   Reader and verifier agree on every file: reading it from start to end succeeds if and only if
   it starts with the frame of some data of that length.
  */
  lemma {:induction false} ReaderAgreesWithVerifier(h: Hash, file: Bytes, n: nat, s: nat)
    requires s > 0
    ensures ReadRange(Reading(h, s), NewReader(Some(file), [], n, s), s, 0, n).Ok? <==> StartsFramed(h, file, n, s)
  {
    IntactIffStartsFramed(h, file, n, s);
    if n > 0 {
      var rd := NewReader(Some(file), [], n, s);
      var w := Window(file, 0, FramedSize(n, s));
      var open := rd.(currOffset := 0, rc := Some(w));
      OpensAtStart(file, n, s);
      AgreesOnceOpen(h, rd, open, w, n, s);
      IntactInWindow(h, file, n, s);
    }
  }

  lemma {:induction false} AgreesOnceOpen(h: Hash, rd: Reader, open: Reader, w: Bytes, n: nat, s: nat)
    requires s > 0 && n > 0 && Opened(rd, 0, s) == Ok(open) && open.rc == Some(w) && open.currOffset == 0
    ensures ReadRange(Reading(h, s), rd, s, 0, n).Ok? <==> Intact(h, w, n, s)
  {
    DivUnique(0, s, 0, 0);
    RangeOpens(h, s, rd, open, 0, n);
    OpenRangeReads(h, s, open, w, 0, n);
  }
}
