/** The offset-based read that simtemp_read (nxp_simtemp.c) and hello_read (hello.c)
    both implement over a fixed-length byte record: EOF once the file position has
    reached the record's length, otherwise the requested count cut down to what is left,
    that slice copied out, the position advanced by it. The caller's buffer appears as a
    flag saying whether it can be written: copy_to_user fails only when it has at least
    one byte to copy into a buffer that cannot be written. */
module CharRead {
  import opened Bytes

  /** The errno value of EFAULT; the read returns its negation. */
  const EFAULT: nat := 14

  function Min(a: nat, b: nat): nat
  {
    if a <= b then a else b
  }

  /** Whether copy_to_user of n bytes reports bytes left uncopied; copying zero bytes
      always succeeds. */
  predicate CopyFails(n: nat, bufferOk: bool)
  {
    n > 0 && !bufferOk
  }

  /** What one read call does: the value it returns, the bytes it hands to the caller,
      and the file position afterwards. */
  datatype ReadResult = ReadResult(ret: int, chunk: seq<byte>, newPos: nat)

  /** Reading count bytes at position pos of data: the window [pos, min(|data|, pos + count)). */
  function ReadAt(data: seq<byte>, pos: nat, count: nat, bufferOk: bool): (r: ReadResult)
    ensures r.ret == -(EFAULT as int) || 0 <= r.ret <= count
    ensures r.ret <= 0 ==> r.chunk == [] && r.newPos == pos
    ensures r.ret >= 0 ==> r.newPos == pos + r.ret && |r.chunk| == r.ret
    ensures pos < |data| ==> r.newPos <= |data| && r.chunk == data[pos..r.newPos]
    ensures pos < |data| ==> (r.ret == -(EFAULT as int) <==> CopyFails(count, bufferOk))
    ensures pos < |data| && !CopyFails(count, bufferOk) ==> r.ret == Min(count, |data| - pos)
    ensures r.ret == 0 <==> pos >= |data| || count == 0
  {
    if pos >= |data| then ReadResult(0, [], pos)
    else
      var end := Min(|data|, pos + count);
      if CopyFails(end - pos, bufferOk) then ReadResult(-(EFAULT as int), [], pos)
      else ReadResult(end - pos, data[pos..end], end)
  }

  /** Once the position reaches the end, a read returns 0 and changes nothing. */
  lemma ReadAtEnd(data: seq<byte>, pos: nat, count: nat, bufferOk: bool)
    requires pos >= |data|
    ensures ReadAt(data, pos, count, bufferOk) == ReadResult(0, [], pos)
  {
  }

  /** Before the end, a read of zero bytes returns 0 and moves nothing, whatever the
      buffer; a read of more returns -EFAULT without moving the position when the buffer
      cannot be written. */
  lemma ReadAtBeforeEnd(data: seq<byte>, pos: nat, count: nat, bufferOk: bool)
    requires pos < |data|
    ensures count == 0 ==> ReadAt(data, pos, count, bufferOk) == ReadResult(0, [], pos)
    ensures count > 0 && !bufferOk ==> ReadAt(data, pos, count, bufferOk) == ReadResult(-(EFAULT as int), [], pos)
  {
  }

  /** One read request: the byte count asked for and whether the buffer can be written. */
  datatype Request = Request(count: nat, bufferOk: bool)

  /** The bytes that requests into writable buffers ask for in total. */
  function Requested(reqs: seq<Request>): nat
  {
    if reqs == [] then 0
    else (if reqs[0].bufferOk then reqs[0].count else 0) + Requested(reqs[1..])
  }

  /** Every record is L bytes long. */
  predicate SameLength(records: seq<seq<byte>>, L: nat)
  {
    forall i :: 0 <= i < |records| ==> |records[i]| == L
  }

  /** Issuing reqs in order from position pos, call i reading records[i] (the driver may
      build a fresh record on every call): the concatenated bytes delivered and the final
      position. The position only moves forward, and by exactly the number of bytes
      delivered, so no byte is skipped or delivered twice. */
  function Drain(records: seq<seq<byte>>, pos: nat, reqs: seq<Request>): (d: (seq<byte>, nat))
    requires |records| == |reqs|
    ensures d.1 >= pos && |d.0| == d.1 - pos
  {
    if reqs == [] then ([], pos)
    else
      var r := ReadAt(records[0], pos, reqs[0].count, reqs[0].bufferOk);
      var rest := Drain(records[1..], r.newPos, reqs[1..]);
      (r.chunk + rest.0, rest.1)
  }

  lemma SameLengthTail(records: seq<seq<byte>>, L: nat)
    requires records != [] && SameLength(records, L)
    ensures SameLength(records[1..], L)
  {
    forall i | 0 <= i < |records[1..]| ensures |records[1..][i]| == L {
      assert records[1..][i] == records[i + 1];
    }
  }

  /** Reads never stop short or overrun: the final position is min(L, pos + the bytes
      the requests into writable buffers asked for). */
  lemma {:induction false} DrainPosition(records: seq<seq<byte>>, L: nat, pos: nat, reqs: seq<Request>)
    requires |records| == |reqs| && SameLength(records, L) && pos <= L
    ensures Drain(records, pos, reqs).1 == Min(L, pos + Requested(reqs))
  {
    if reqs != [] {
      var r := ReadAt(records[0], pos, reqs[0].count, reqs[0].bufferOk);
      SameLengthTail(records, L);
      DrainPosition(records[1..], L, r.newPos, reqs[1..]);
    }
  }

  /** Every record agrees with ref on the byte positions [lo, hi). */
  predicate AgreeOn(records: seq<seq<byte>>, ref: seq<byte>, lo: nat, hi: nat)
    requires hi <= |ref| && SameLength(records, |ref|)
  {
    forall i, k :: 0 <= i < |records| && lo <= k < hi ==> records[i][k] == ref[k]
  }

  lemma AgreeOnTail(records: seq<seq<byte>>, ref: seq<byte>, lo: nat, hi: nat)
    requires records != [] && hi <= |ref| && SameLength(records, |ref|)
    requires AgreeOn(records, ref, lo, hi)
    ensures SameLength(records[1..], |ref|) && AgreeOn(records[1..], ref, lo, hi)
  {
    SameLengthTail(records, |ref|);
    forall i, k | 0 <= i < |records[1..]| && lo <= k < hi ensures records[1..][i][k] == ref[k] {
      assert records[1..][i] == records[i + 1];
    }
  }

  /** The bytes of one read followed by those of the reads after it agree with ref
      where the record read and the later ones do. */
  lemma ChunkThenRestAgree(data: seq<byte>, ref: seq<byte>, lo: nat, hi: nat, r: ReadResult,
                           pos: nat, rest: seq<byte>)
    requires |data| == |ref| && pos <= |ref| && hi <= |ref|
    requires forall k :: lo <= k < hi ==> data[k] == ref[k]
    requires r.newPos == pos + |r.chunk| && r.newPos <= |data| && r.chunk == data[pos..r.newPos]
    requires forall k :: 0 <= k < |rest| && lo <= r.newPos + k < hi ==> rest[k] == ref[r.newPos + k]
    ensures forall k :: 0 <= k < |r.chunk + rest| && lo <= pos + k < hi ==> (r.chunk + rest)[k] == ref[pos + k]
  {
    var out := r.chunk + rest;
    forall k | 0 <= k < |out| && lo <= pos + k < hi ensures out[k] == ref[pos + k] {
      if k < |r.chunk| {
        assert out[k] == data[pos + k];
      } else {
        assert out[k] == rest[k - |r.chunk|];
        assert r.newPos + (k - |r.chunk|) == pos + k;
      }
    }
  }

  /** On the positions where all the records agree with ref, the concatenated reads
      deliver ref's bytes, whichever call delivered them. */
  lemma {:induction false} DrainAgrees(records: seq<seq<byte>>, ref: seq<byte>, lo: nat, hi: nat,
                                     pos: nat, reqs: seq<Request>)
    requires |records| == |reqs| && hi <= |ref| && SameLength(records, |ref|) && pos <= |ref|
    requires AgreeOn(records, ref, lo, hi)
    ensures Drain(records, pos, reqs).1 <= |ref|
    ensures forall k :: 0 <= k < |Drain(records, pos, reqs).0| && lo <= pos + k < hi ==>
              Drain(records, pos, reqs).0[k] == ref[pos + k]
  {
    if reqs != [] {
      var r := ReadAt(records[0], pos, reqs[0].count, reqs[0].bufferOk);
      assert |records[0]| == |ref|;
      AgreeOnTail(records, ref, lo, hi);
      DrainAgrees(records[1..], ref, lo, hi, r.newPos, reqs[1..]);
      var rest := Drain(records[1..], r.newPos, reqs[1..]);
      var out := Drain(records, pos, reqs);
      assert out == (r.chunk + rest.0, rest.1);
      ChunkThenRestAgree(records[0], ref, lo, hi, r, pos, rest.0);
    }
  }

  /** Records that all equal data have its length and agree with it everywhere. */
  lemma SameRecordAgrees(data: seq<byte>, records: seq<seq<byte>>)
    requires forall i :: 0 <= i < |records| ==> records[i] == data
    ensures SameLength(records, |data|) && AgreeOn(records, data, 0, |data|)
  {
  }

  /** n bytes that agree with data from position 0 are its first n bytes. */
  lemma AgreeingPrefix(out: seq<byte>, data: seq<byte>, n: nat)
    requires |out| == n <= |data|
    requires forall k :: 0 <= k < |out| && 0 <= 0 + k < |data| ==> out[k] == data[0 + k]
    ensures out == data[..n]
  {
    forall k | 0 <= k < n ensures out[k] == data[..n][k] {
      assert 0 <= 0 + k < |data|;
    }
  }

  /** Reading records that all agree with data everywhere, from position 0, delivers
      the first min(|data|, requested) bytes of data. */
  lemma DrainAgreeingRecords(data: seq<byte>, records: seq<seq<byte>>, reqs: seq<Request>)
    requires |records| == |reqs| && SameLength(records, |data|) && AgreeOn(records, data, 0, |data|)
    ensures Drain(records, 0, reqs).1 == Min(|data|, Requested(reqs))
    ensures Drain(records, 0, reqs).0 == data[..Min(|data|, Requested(reqs))]
  {
    DrainPosition(records, |data|, 0, reqs);
    DrainAgrees(records, data, 0, |data|, 0, reqs);
    var d := Drain(records, 0, reqs);
    var n := Min(|data|, Requested(reqs));
    assert |d.0| == n;
    AgreeingPrefix(d.0, data, n);
  }

  /** Reading the same record on every call, from position 0, delivers its first
      min(|data|, requested) bytes, each once and in order. */
  lemma DrainSameRecord(data: seq<byte>, records: seq<seq<byte>>, reqs: seq<Request>)
    requires |records| == |reqs| && forall i :: 0 <= i < |records| ==> records[i] == data
    ensures Drain(records, 0, reqs).1 == Min(|data|, Requested(reqs))
    ensures Drain(records, 0, reqs).0 == data[..Min(|data|, Requested(reqs))]
  {
    SameRecordAgrees(data, records);
    DrainAgreeingRecords(data, records, reqs);
  }

  /** Reading the same record on every call, from position 0 until the requests cover it,
      delivers the whole record exactly once and leaves the position at its end. */
  lemma DrainWholeRecord(data: seq<byte>, records: seq<seq<byte>>, reqs: seq<Request>)
    requires |records| == |reqs| && forall i :: 0 <= i < |records| ==> records[i] == data
    requires Requested(reqs) >= |data|
    ensures Drain(records, 0, reqs) == (data, |data|)
  {
    DrainSameRecord(data, records, reqs);
    assert data[..|data|] == data;
  }
}
