/**
 Whole-file bitrot protection: one hash, kept beside the file, over everything that was written.
 The writer hashes what the disk accepted, the verifier hashes the whole file, and the reader
 loads a verified range on its first call and then hands it out.
*/
module BitrotWhole {
  import opened Common
  import opened Bitrot
  import opened BitrotStreaming

  /** Any hash function; no collision assumption is needed. */
  type Sum = Bytes -> Bytes

  // ---- Writer

  /** One Write call; `failsAfter` is the number of bytes a failing append leaves on the disk. */
  datatype Append = Append(p: Bytes, failsAfter: Option<nat>) {
    predicate Accepted() { failsAfter == None }

    function Landed(): Bytes {
      if Accepted() || failsAfter.value >= |p| then p else p[..failsAfter.value]
    }

    function Acknowledged(): Bytes { if Accepted() then p else [] }
  }

  class WholeBitrotWriter {
    var file: Bytes      // what is on the disk
    var absorbed: Bytes  // what the running hash has been fed

    constructor ()
      ensures file == [] && absorbed == []
    {
      file, absorbed := [], [];
    }

    method Write(a: Append) returns (n: nat, ok: bool)
      modifies this
      ensures file == old(file) + a.Landed()
      ensures absorbed == old(absorbed) + a.Acknowledged()
      ensures ok == a.Accepted() && n == |a.Acknowledged()|
    {
      file := file + a.Landed();
      if a.failsAfter.Some? {
        return 0, false;
      }
      absorbed := absorbed + a.p;
      return |a.p|, true;
    }
  }

  function Landed(run: seq<Append>): Bytes {
    if run == [] then [] else run[0].Landed() + Landed(run[1..])
  }

  function Acknowledged(run: seq<Append>): Bytes {
    if run == [] then [] else run[0].Acknowledged() + Acknowledged(run[1..])
  }

  /** No failing append left a byte behind. */
  predicate CleanFailures(run: seq<Append>) {
    forall a :: a in run && !a.Accepted() ==> a.Landed() == []
  }

  /** The file holds at least the acknowledged bytes, and no more exactly after clean failures. */
  lemma {:induction false} LandedCovers(run: seq<Append>)
    ensures |Landed(run)| >= |Acknowledged(run)|
    ensures |Landed(run)| == |Acknowledged(run)| <==> CleanFailures(run)
    ensures CleanFailures(run) ==> Landed(run) == Acknowledged(run)
  {
    if run != [] {
      LandedCovers(run[1..]);
      assert run == [run[0]] + run[1..];
    }
  }

  // ---- Verifier

  /** bitrotVerify for every algorithm but the streaming one; the stream may fail after `r`. */
  function VerifyWhole(h: Sum, r: Bytes, fails: bool, wantSize: int, want: Bytes): Outcome {
    if fails || |r| != wantSize then FileCorrupt
    else if h(r) != want then FileCorrupt
    else Accepted
  }

  /** A file is accepted exactly if it can be read, has the wanted size and matches the sum. */
  lemma {:induction false} VerifyWholeExactly(h: Sum, r: Bytes, fails: bool, wantSize: int, want: Bytes)
    ensures VerifyWhole(h, r, fails, wantSize, want) ==
            if !fails && |r| == wantSize && h(r) == want then Accepted else FileCorrupt
  {
  }

  /** An append leaves a prefix of its bytes: all of them if accepted, else as many as got through. */
  lemma {:induction false} LandedIsPrefix(a: Append)
    ensures a.Landed() <= a.p
    ensures |a.Landed()| == if a.failsAfter == None then |a.p| else Min(a.failsAfter.value, |a.p|)
    ensures a.Acknowledged() == if a.failsAfter == None then a.p else []
  {
  }

  /**
   For every chunking of the data into writes and every pattern of failures, verification against
   the writer's sum and the acknowledged size accepts the file if and only if no failing append
   left bytes behind.
  */
  lemma {:induction false} WriterSatisfiesVerifier(h: Sum, run: seq<Append>)
    ensures var (file, acked) := (Landed(run), Acknowledged(run));
            VerifyWhole(h, file, false, |acked|, h(acked)) == Accepted <==> CleanFailures(run)
  {
    LandedCovers(run);
  }

  /** With every write accepted the chunking is irrelevant: file and sum are those of the data. */
  lemma {:induction false} ChunkingIsIrrelevant(h: Sum, run: seq<Append>, data: Bytes)
    requires forall a :: a in run ==> a.Accepted()
    requires data == Flatten(seq(|run|, i requires 0 <= i < |run| => run[i].p))
    ensures Landed(run) == data && Acknowledged(run) == data
    ensures VerifyWhole(h, Landed(run), false, |data|, h(Acknowledged(run))) == Accepted
  {
    if run != [] {
      var chunks := seq(|run|, i requires 0 <= i < |run| => run[i].p);
      var rest := run[1..];
      assert chunks[1..] == seq(|rest|, i requires 0 <= i < |rest| => rest[i].p);
      ChunkingIsIrrelevant(h, rest, Flatten(chunks[1..]));
    }
  }

  // ---- Reader

  datatype WholeError =
    | InvalidArgument | CannotOpen | EndOfFile | UnexpectedEndOfFile | Corrupt | LessData
    | Panicked  // a negative buffer size

  function Zeros(n: nat): Bytes { seq(n, i => 0) }

  /** The storage layer's verified ReadFile into a fresh buffer of n bytes: the buffer and the error. */
  function ReadFile(h: Sum, sum: Bytes, disk: Option<Bytes>, offset: int, n: nat): (r: (Bytes, Option<WholeError>))
    ensures |r.0| == n
  {
    if offset < 0 then (Zeros(n), Some(InvalidArgument))
    else if disk == None then (Zeros(n), Some(CannotOpen))
    else
      var file := disk.value;
      var from := Min(offset, |file|);
      var to := Min(from + n, |file|);
      var got := file[from..to];
      if got == [] && n > 0 then (Zeros(n), Some(EndOfFile))
      else if |got| < n then (got + Zeros(n - |got|), Some(UnexpectedEndOfFile))
      else if h(file[..from] + got + file[to..]) != sum then (got, Some(Corrupt))
      else (got, None)
  }

  /** The range can be read and the whole file matches the sum. */
  predicate Loads(h: Sum, sum: Bytes, disk: Option<Bytes>, offset: int, n: nat) {
    offset >= 0 && disk.Some? && h(disk.value) == sum && (n == 0 || offset + n <= |disk.value|)
  }

  /** ReadFile succeeds exactly on readable ranges of files that match as a whole. */
  lemma {:induction false} ReadFileVerifies(h: Sum, sum: Bytes, disk: Option<Bytes>, offset: int, n: nat)
    ensures var (buf, err) := ReadFile(h, sum, disk, offset, n);
            && (err == None <==> Loads(h, sum, disk, offset, n))
            && (err == None && n > 0 ==> buf == disk.value[offset..offset + n])
  {
    if offset >= 0 && disk.Some? {
      var file := disk.value;
      var from := Min(offset, |file|);
      var to := Min(from + n, |file|);
      assert file[..from] + file[from..to] + file[to..] == file;
    }
  }

  /** What the buffer holds after a read, successful or not, and which error is reported. */
  lemma {:induction false} ReadFileOutcome(h: Sum, sum: Bytes, file: Bytes, offset: nat, n: nat)
    ensures var (buf, err) := ReadFile(h, sum, Some(file), offset, n);
            var there := if offset >= |file| then 0 else Min(n, |file| - offset);
            && (forall i :: 0 <= i < n ==> buf[i] == if i < there then file[offset + i] else 0)
            && err == if there < n then Some(if there == 0 then EndOfFile else UnexpectedEndOfFile)
                      else if h(file) != sum then Some(Corrupt) else None
  {
    var from := Min(offset, |file|);
    var to := Min(from + n, |file|);
    assert file[..from] + file[from..to] + file[to..] == file;
  }

  lemma {:induction false} ReadFileRefuses(h: Sum, sum: Bytes, disk: Option<Bytes>, offset: int, n: nat)
    requires offset < 0 || disk == None
    ensures ReadFile(h, sum, disk, offset, n) ==
            (seq(n, _ => 0), Some(if offset < 0 then InvalidArgument else CannotOpen))
  {
  }

  /** `buf` is None until the first call. */
  datatype WholeReader = WholeReader(disk: Option<Bytes>, sum: Bytes, tillOffset: int, buf: Option<Bytes>)

  /** ReadAt into a buffer of n bytes. */
  function WholeStep(h: Sum, rd: WholeReader, n: nat, offset: int): (WholeReader, Result<Bytes, WholeError>) {
    if rd.buf.Some? then HandOut(rd, n)
    else if rd.tillOffset < offset then (rd, Err(Panicked))
    else
      var (buf, err) := ReadFile(h, rd.sum, rd.disk, offset, rd.tillOffset - offset);
      var loaded := rd.(buf := Some(buf));
      if err.Some? then (loaded, Err(err.value)) else HandOut(loaded, n)
  }

  function HandOut(rd: WholeReader, n: nat): (WholeReader, Result<Bytes, WholeError>)
    requires rd.buf.Some?
  {
    var b := rd.buf.value;
    if |b| < n then (rd, Err(LessData)) else (rd.(buf := Some(b[n..])), Ok(b[..n]))
  }

  class WholeBitrotReader {
    const h: Sum
    const disk: Option<Bytes>
    const sum: Bytes
    const tillOffset: int
    var buf: Option<Bytes>

    constructor (h: Sum, disk: Option<Bytes>, sum: Bytes, tillOffset: int)
      ensures this.h == h && Now() == WholeReader(disk, sum, tillOffset, None)
    {
      this.h, this.disk, this.sum, this.tillOffset := h, disk, sum, tillOffset;
      buf := None;
    }

    ghost function Now(): WholeReader
      reads this
    {
      WholeReader(disk, sum, tillOffset, buf)
    }

    method ReadAt(n: nat, offset: int) returns (r: Result<Bytes, WholeError>)
      modifies this
      ensures (Now(), r) == WholeStep(h, old(Now()), n, offset)
    {
      if buf == None {
        if tillOffset - offset < 0 {
          return Err(Panicked);
        }
        var (loaded, err) := ReadFile(h, sum, disk, offset, tillOffset - offset);
        buf := Some(loaded);
        if err.Some? {
          return Err(err.value);
        }
      }
      if |buf.value| < n {
        return Err(LessData);
      }
      r := Ok(buf.value[..n]);
      buf := Some(buf.value[n..]);
    }
  }

  function WholeReading(h: Sum): (WholeReader, nat, int) -> (WholeReader, Result<Bytes, WholeError>) {
    (rd, n, offset) => WholeStep(h, rd, n, offset)
  }

  lemma {:induction false} LoadedRangeReads(h: Sum, rd: WholeReader, b: Bytes, s: nat, offset: int)
    requires s > 0 && rd.buf == Some(b)
    ensures ReadRange(WholeReading(h), rd, s, offset, offset + |b|) == Ok(b)
    decreases |b|
  {
    if b != [] {
      var n := Min(s, |b|);
      LoadedRangeReads(h, rd.(buf := Some(b[n..])), b[n..], s, offset + n);
      assert b == b[..n] + b[n..];
    }
  }

  /** The buffer that a first call at `o` fills, when it loads. */
  function Slice(disk: Option<Bytes>, o: int, till: int): Bytes
    requires o <= till && disk.Some? && (o == till || 0 <= o <= till <= |disk.value|)
  {
    if o == till then [] else disk.value[o..till]
  }

  /** The first call either loads the slice and reads from it, or fails. */
  lemma {:induction false} FirstCall(h: Sum, rd: WholeReader, n: nat, o: int)
    requires rd.buf == None && o <= rd.tillOffset
    ensures var (rd', r) := WholeStep(h, rd, n, o);
            if Loads(h, rd.sum, rd.disk, o, rd.tillOffset - o)
            then (rd', r) == WholeStep(h, rd.(buf := Some(Slice(rd.disk, o, rd.tillOffset))), n, o)
            else r.Err? && rd'.buf.Some? && |rd'.buf.value| == rd.tillOffset - o
  {
    ReadFileVerifies(h, rd.sum, rd.disk, o, rd.tillOffset - o);
  }

  lemma {:induction false} SameFirstCall(h: Sum, rd: WholeReader, loaded: WholeReader, s: nat, o: int, t: int)
    requires s > 0 && o < t && WholeStep(h, rd, Min(s, t - o), o) == WholeStep(h, loaded, Min(s, t - o), o)
    ensures ReadRange(WholeReading(h), rd, s, o, t) == ReadRange(WholeReading(h), loaded, s, o, t)
  {
  }

  /**
   A fresh reader's sequential run over [o, t) succeeds if and only if the range is in the file and
   the whole file matches the sum; it then returns that slice.
  */
  lemma {:induction false} WholeReadReturnsTheSlice(h: Sum, file: Bytes, sum: Bytes, o: nat, t: nat, s: nat)
    requires s > 0 && o < t
    ensures var r := ReadRange(WholeReading(h), WholeReader(Some(file), sum, t, None), s, o, t);
            && (r.Ok? <==> t <= |file| && h(file) == sum)
            && (r.Ok? ==> r.value == file[o..t])
  {
    var rd := WholeReader(Some(file), sum, t, None);
    FirstCall(h, rd, Min(s, t - o), o);
    if Loads(h, sum, Some(file), o, t - o) {
      var loaded := rd.(buf := Some(file[o..t]));
      SameFirstCall(h, rd, loaded, s, o, t);
      LoadedRangeReads(h, loaded, file[o..t], s, o);
    }
  }

  /** Over the same data, both readers return the same bytes for every sequential run. */
  lemma {:induction false} ReadersAgree(h: Hash, g: Sum, data: Bytes, o: nat, t: nat, s: nat)
    requires s > 0 && o <= t <= |data| && o % s == 0 && (t % s == 0 || t == |data|)
    ensures var whole := ReadRange(WholeReading(g), WholeReader(Some(data), g(data), t, None), s, o, t);
            var streaming := ReadRange(Reading(h, s), NewReader(Some(Frame(h, data, s)), [], t, s), s, o, t);
            whole.Ok? && streaming.Ok? && whole.value == streaming.value == data[o..t]
  {
    assert Frame(h, data, s) + [] == Frame(h, data, s);
    SequentialReadReturnsTheSlice(h, data, o, t, s, [], NewReader(Some(Frame(h, data, s)), [], t, s));
    if o < t {
      WholeReadReturnsTheSlice(g, data, g(data), o, t, s);
    }
  }

  // ---- Arbitrary runs of calls on one reader

  datatype Call = Call(n: nat, offset: int)

  /** The bytes that the successful calls of a run deliver, in order. */
  function Delivered(h: Sum, rd: WholeReader, run: seq<Call>): Bytes
    decreases run
  {
    if run == [] then []
    else
      var (rd', r) := WholeStep(h, rd, run[0].n, run[0].offset);
      (if r.Ok? then r.value else []) + Delivered(h, rd', run[1..])
  }

  /** Once loaded, the buffer is handed out from front to back, whatever offsets are asked for. */
  lemma {:induction false} BufferIsHandedOut(h: Sum, rd: WholeReader, run: seq<Call>)
    requires rd.buf.Some?
    ensures Delivered(h, rd, run) <= rd.buf.value
    decreases run
  {
    if run != [] {
      var (rd', r) := WholeStep(h, rd, run[0].n, run[0].offset);
      BufferIsHandedOut(h, rd', run[1..]);
    }
  }

  /**
   If the first call loads, every run of calls delivers consecutive bytes of a file that matches
   the sum, starting at the first call's offset.
  */
  lemma {:induction false} VerifiedDelivery(h: Sum, disk: Option<Bytes>, sum: Bytes, till: int, run: seq<Call>)
    requires run != [] && run[0].offset <= till && Loads(h, sum, disk, run[0].offset, till - run[0].offset)
    ensures var o := run[0].offset; var d := Delivered(h, WholeReader(disk, sum, till, None), run);
            d == [] || (o + |d| <= till <= |disk.value| && d == disk.value[o..o + |d|])
  {
    var o := run[0].offset;
    var rd := WholeReader(disk, sum, till, None);
    var loaded := rd.(buf := Some(Slice(disk, o, till)));
    FirstCall(h, rd, run[0].n, o);
    SameDelivery(h, rd, loaded, run);
    BufferIsHandedOut(h, loaded, run);
    PrefixOfSlice(disk, o, till, Delivered(h, loaded, run));
  }

  lemma {:induction false} SameDelivery(h: Sum, rd: WholeReader, loaded: WholeReader, run: seq<Call>)
    requires run != []
    requires WholeStep(h, rd, run[0].n, run[0].offset) == WholeStep(h, loaded, run[0].n, run[0].offset)
    ensures Delivered(h, rd, run) == Delivered(h, loaded, run)
  {
  }

  lemma {:induction false} PrefixOfSlice(disk: Option<Bytes>, o: int, till: int, d: Bytes)
    requires o <= till && disk.Some? && (o == till || 0 <= o <= till <= |disk.value|)
    requires d <= Slice(disk, o, till)
    ensures d == [] || (o + |d| <= till <= |disk.value| && d == disk.value[o..o + |d|])
  {
  }

  lemma {:induction false} NothingHandedOut(h: Sum, rd: WholeReader, run: seq<Call>)
    requires rd.buf.Some?
    ensures Delivered(h, rd, run) == [] <==> forall c :: c in run ==> c.n == 0 || c.n > |rd.buf.value|
    decreases run
  {
    if run != [] {
      var b, n, more := rd.buf.value, run[0].n, run[1..];
      var (rd', r) := WholeStep(h, rd, n, run[0].offset);
      assert run[0] in run && forall c :: c in run <==> c == run[0] || c in more;
      if n == 0 || n > |b| {
        assert b[0..] == b;
        assert rd' == rd;
        NothingHandedOut(h, rd, more);
      }
    }
  }

  /**
   A failed load leaves its buffer behind. Over every run of later calls, nothing that was never
   verified is handed out if and only if each of them asks for nothing or for more than the buffer.
  */
  lemma {:induction false} RetryAfterFailedLoad(
      h: Sum, disk: Option<Bytes>, sum: Bytes, till: int, first: Call, later: seq<Call>)
    requires first.offset <= till && !Loads(h, sum, disk, first.offset, till - first.offset)
    ensures var (rd, r) := WholeStep(h, WholeReader(disk, sum, till, None), first.n, first.offset);
            && r.Err?
            && (Delivered(h, rd, later) == [] <==>
                  forall c :: c in later ==> c.n == 0 || c.n > till - first.offset)
  {
    var rd := WholeReader(disk, sum, till, None);
    FirstCall(h, rd, first.n, first.offset);
    NothingHandedOut(h, WholeStep(h, rd, first.n, first.offset).0, later);
  }

  /** With a corrupted file the retry returns the corrupted bytes. */
  lemma {:induction false} RetryReturnsCorruptBytes(h: Sum, file: Bytes, sum: Bytes)
    requires file != [] && h(file) != sum
    ensures Delivered(h, WholeReader(Some(file), sum, |file|, None), [Call(|file|, 0), Call(|file|, 0)]) == file
  {
    var rd := WholeReader(Some(file), sum, |file|, None);
    var run := [Call(|file|, 0), Call(|file|, 0)];
    assert file[0..|file|] == file && file[..0] + file + file[|file|..] == file;
    var (rd', r) := WholeStep(h, rd, |file|, 0);
    assert rd'.buf == Some(file) && r == Err(Corrupt);
    assert run[1..] == [Call(|file|, 0)];
    var (rd'', r') := WholeStep(h, rd', |file|, 0);
    assert r' == Ok(file);
    assert run[1..][1..] == [];
    assert Delivered(h, rd', run[1..]) == file + Delivered(h, rd'', []);
  }
}
