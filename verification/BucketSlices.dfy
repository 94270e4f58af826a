/**
 The loops of the generated codec over the tracker's bucket lists. The writer appends each name to a
 growing buffer; the reader fills the receiver's slice in place while its capacity suffices, and
 makes a new slice otherwise.
*/
module BucketSlices {
  import opened Common
  import opened MsgPack
  import opened TrackerCodec

  // ---- Writing

  method AppendBuckets(o: Bytes, l: seq<Bytes>) returns (o': Bytes)
    ensures o' == o + WriteValue(Texts(l))
  {
    o' := o + ArrayHeader(Uint32(|l|));
    ghost var start := o';
    var i := 0;
    while i < |l|
      invariant i <= |l|
      invariant start + WriteStrings(l) == o' + WriteStrings(l[i..])
    {
      assert l[i..][0] == l[i] && l[i..][1..] == l[i + 1..];
      Associate(o', WriteString(l[i]), WriteStrings(l[i + 1..]));
      o' := o' + WriteString(l[i]);
      i := i + 1;
    }
    Associate(o, ArrayHeader(Uint32(|l|)), WriteStrings(l));
    assert o' + [] == o';
  }

  // ---- Slices

  /** A Go slice: `len` of the `cap` cells from `off` on. */
  datatype Slice = Slice(cells: array<Bytes>, off: nat, len: nat, cap: nat) {
    ghost predicate Valid() { len <= cap && off + cap <= cells.Length }

    ghost function Contents(): seq<Bytes>
      requires Valid()
      reads cells
    {
      cells[off..off + len]
    }
  }

  /** `c` with the cells from `off` on replaced by `l`. */
  function Overwrite(c: seq<Bytes>, off: nat, l: seq<Bytes>): (r: seq<Bytes>)
    requires off + |l| <= |c|
    ensures |r| == |c| && r[off..off + |l|] == l
    ensures forall p :: 0 <= p < |c| && !(off <= p < off + |l|) ==> r[p] == c[p]
  {
    c[..off] + l + c[off + |l|..]
  }

  lemma {:induction false} PrependNone(r: Read<seq<Bytes>>)
    ensures Prepended([], r) == r
  {
    if r.Ok? {
      assert [] + r.value.0 == r.value.0;
    }
  }

  lemma {:induction false} PrependOne(done: seq<Bytes>, s: Bytes, r: Read<seq<Bytes>>)
    ensures Prepended(done, Prepended([s], r)) == Prepended(done + [s], r)
  {
    if r.Ok? {
      Associate(done, [s], r.value.0);
    }
  }

  /** Fills the first n cells of the slice, until a string cannot be read. */
  method FillCells(text: Bytes -> Read<Bytes>, cells: array<Bytes>, off: nat, n: nat, bts: Bytes)
      returns (r: Result<Bytes, Error>)
    requires off + n <= cells.Length
    modifies cells
    ensures r.Err? ==> TextsFrom(text, bts, n) == Err(r.error)
    ensures r.Ok? ==>
              && TextsFrom(text, bts, n).Ok? && TextsFrom(text, bts, n).value.1 == r.value
              && cells[..] == Overwrite(old(cells[..]), off, TextsFrom(text, bts, n).value.0)
  {
    ghost var all := TextsFrom(text, bts, n);
    ghost var done: seq<Bytes> := [];
    PrependNone(all);
    var b, i := bts, 0;
    while i < n
      invariant i == |done| <= n
      invariant all == Prepended(done, TextsFrom(text, b, n - i))
      invariant cells[..] == Overwrite(old(cells[..]), off, done)
    {
      var s := text(b);
      if s.Err? {
        return Err(s.error);
      }
      PrependOne(done, s.value.0, TextsFrom(text, s.value.1, n - i - 1));
      cells[off + i] := s.value.0;
      done := done + [s.value.0];
      b := s.value.1;
      i := i + 1;
    }
    assert done + [] == done;
    return Ok(b);
  }

  /**
   The reader of one bucket list. It reuses the slice exactly if its capacity suffices; then only the
   cells of the list change. Otherwise the slice gets a new array.
  */
  method ReadBuckets(rd: ListReader, s: Slice, bts: Bytes) returns (s': Slice, r: Result<Bytes, Error>)
    requires s.Valid()
    modifies s.cells
    ensures s'.Valid() && (s'.cells == s.cells || fresh(s'.cells))
    ensures r.Err? ==> ListFrom(rd, bts) == Err(r.error)
    ensures r.Ok? ==> ListFrom(rd, bts).Ok? && ListFrom(rd, bts).value.1 == r.value
    ensures r.Ok? ==>
              var l := ListFrom(rd, bts).value.0;
              && s'.Contents() == l
              && (|l| <= s.cap ==>
                    s' == s.(len := |l|) && s.cells[..] == Overwrite(old(s.cells[..]), s.off, l))
              && (|l| > s.cap ==> fresh(s'.cells) && s.cells[..] == old(s.cells[..]))
  {
    s' := s;
    var header := rd.header(bts);
    if header.Err? {
      return s', Err(header.error);
    }
    var (n, b) := header.value;
    if s.cap >= n {
      s' := s.(len := n);
    } else {
      var cells := new Bytes[n];
      s' := Slice(cells, 0, n, n);
    }
    r := FillCells(rd.text, s'.cells, s'.off, n, b);
  }
}
