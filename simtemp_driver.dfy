/** simtemp_read in nxp_simtemp.c: the skeleton driver's read of /dev/simtemp. Each call
    that is not at EOF builds a fresh sample (timestamp from ktime_get_ns, placeholder
    temperature 42123 m°C, flags NEW_SAMPLE) and copies out the window of its 16-byte
    image that starts at the file position. Partial reads are allowed. */
module SimtempDriver {
  import opened Bytes
  import opened SimtempSample
  import opened CharRead

  /** 42.123 °C, the placeholder reading. */
  const PLACEHOLDER_TEMP_MC: s32 := 42123

  /** bit0 NEW_SAMPLE only. */
  const PLACEHOLDER_FLAGS: u32 := 1

  /** The sample a read builds when ktime_get_ns returns nowNs. */
  function BuildSample(nowNs: u64): (s: Sample)
    ensures s.timestampNs == nowNs && s.tempMilliC == 42123
    ensures IsSet(s.flags, NewSample) && !IsSet(s.flags, ThresholdCrossed)
    ensures s.flags == FlagWord(true, false)
  {
    assert Bit(PLACEHOLDER_FLAGS, 1) == Bit(0, 0);
    Sample(nowNs, PLACEHOLDER_TEMP_MC, PLACEHOLDER_FLAGS)
  }

  /** The record image a read at time nowNs copies from. */
  function RecordAt(nowNs: u64): (bs: seq<byte>)
    ensures |bs| == SAMPLE_SIZE
    ensures Decode(bs) == BuildSample(nowNs)
  {
    DecodeOfEncode(BuildSample(nowNs));
    Encode(BuildSample(nowNs))
  }

  /** An open file of /dev/simtemp; pos is the file position (*ppos). */
  class SimtempFile {
    var pos: nat

    constructor ()
      ensures pos == 0
    {
      pos := 0;
    }

    /** The read handler. nowNs is what ktime_get_ns returns; bufferOk is whether
        the caller's buffer can be written; chunk is what reaches it. */
    method Read(count: nat, nowNs: u64, bufferOk: bool) returns (ret: int, chunk: seq<byte>)
      modifies this
      ensures ReadResult(ret, chunk, pos) == ReadAt(RecordAt(nowNs), old(pos), count, bufferOk)
      ensures old(pos) >= SAMPLE_SIZE ==> ret == 0 && chunk == [] && pos == old(pos)
      ensures old(pos) < SAMPLE_SIZE && count > 0 && !bufferOk ==> ret == -(EFAULT as int) && chunk == [] && pos == old(pos)
      ensures old(pos) < SAMPLE_SIZE && (count == 0 || bufferOk) ==>
                ret == Min(count, SAMPLE_SIZE - old(pos)) && pos == old(pos) + ret <= SAMPLE_SIZE &&
                chunk == RecordAt(nowNs)[old(pos)..pos]
    {
      var len := SAMPLE_SIZE;
      if pos >= len {
        return 0, [];
      }
      var s := BuildSample(nowNs);
      var n := count;
      if n > len - pos {
        n := len - pos;
      }
      if CopyFails(n, bufferOk) {
        return -(EFAULT as int), [];
      }
      chunk := Encode(s)[pos..pos + n];
      pos := pos + n;
      ret := n;
    }
  }

  /** One read from position 0 asking for at least 16 bytes delivers the whole record,
      which decodes to the built sample, and the next read is EOF. */
  lemma FullReadThenEof(count: nat, t1: u64, t2: u64, count2: nat, bufferOk2: bool)
    requires count >= SAMPLE_SIZE
    ensures ReadAt(RecordAt(t1), 0, count, true) == ReadResult(SAMPLE_SIZE as int, RecordAt(t1), SAMPLE_SIZE)
    ensures Decode(ReadAt(RecordAt(t1), 0, count, true).chunk) == Sample(t1, 42123, 1)
    ensures ReadAt(RecordAt(t2), SAMPLE_SIZE, count2, bufferOk2) == ReadResult(0, [], SAMPLE_SIZE)
  {
    assert RecordAt(t1)[0..SAMPLE_SIZE] == RecordAt(t1);
  }

  /** Records built at different times differ only in the timestamp bytes 0..8. */
  lemma RecordsAgreeAfterTimestamp(t1: u64, t2: u64, k: nat)
    requires 8 <= k < SAMPLE_SIZE
    ensures RecordAt(t1)[k] == RecordAt(t2)[k]
  {
    EncodeFieldOffsets(BuildSample(t1));
    EncodeFieldOffsets(BuildSample(t2));
    if k < 12 {
      assert RecordAt(t1)[k] == RecordAt(t1)[8..12][k - 8];
      assert RecordAt(t2)[k] == RecordAt(t2)[8..12][k - 8];
    } else {
      assert RecordAt(t1)[k] == RecordAt(t1)[12..16][k - 12];
      assert RecordAt(t2)[k] == RecordAt(t2)[12..16][k - 12];
    }
  }

  /** The records of a run of reads: call i builds its sample at stamps[i]. */
  function RecordsAt(stamps: seq<u64>): (records: seq<seq<byte>>)
    ensures |records| == |stamps| && SameLength(records, SAMPLE_SIZE)
  {
    seq(|stamps|, i requires 0 <= i < |stamps| => RecordAt(stamps[i]))
  }

  /** Every record of a run agrees with the record stamped t on bytes 8..16. */
  lemma RecordsAtAgreeAfterTimestamp(stamps: seq<u64>, t: u64)
    ensures AgreeOn(RecordsAt(stamps), RecordAt(t), 8, SAMPLE_SIZE)
  {
    var records := RecordsAt(stamps);
    forall i, k | 0 <= i < |records| && 8 <= k < SAMPLE_SIZE ensures records[i][k] == RecordAt(t)[k] {
      RecordsAgreeAfterTimestamp(stamps[i], t, k);
    }
  }

  /** A 16-byte record that matches the placeholder record on bytes 8..16 decodes to the
      placeholder temperature and flags. */
  lemma DecodePlaceholderTail(out: seq<byte>, t: u64)
    requires |out| == SAMPLE_SIZE
    requires forall k :: 8 <= k < SAMPLE_SIZE ==> out[k] == RecordAt(t)[k]
    ensures Decode(out).tempMilliC == 42123 && Decode(out).flags == 1
  {
    var ref := RecordAt(t);
    assert out[8..12] == ref[8..12];
    assert out[12..16] == ref[12..16];
    DecodeFieldOffsets(out);
    DecodeFieldOffsets(ref);
  }

  /** Partial reads from position 0 until the record is covered put together a 16-byte
      record whose temperature and flags are the placeholder ones, though each call
      stamped its own sample. */
  lemma PartialReadsKeepTemperatureAndFlags(stamps: seq<u64>, reqs: seq<Request>)
    requires |stamps| == |reqs| && Requested(reqs) >= SAMPLE_SIZE
    ensures Drain(RecordsAt(stamps), 0, reqs).1 == SAMPLE_SIZE
    ensures |Drain(RecordsAt(stamps), 0, reqs).0| == SAMPLE_SIZE
    ensures Decode(Drain(RecordsAt(stamps), 0, reqs).0).tempMilliC == 42123
    ensures Decode(Drain(RecordsAt(stamps), 0, reqs).0).flags == 1
  {
    var records := RecordsAt(stamps);
    var t := stamps[0];
    var ref := RecordAt(t);
    DrainPosition(records, SAMPLE_SIZE, 0, reqs);
    RecordsAtAgreeAfterTimestamp(stamps, t);
    DrainAgrees(records, ref, 8, SAMPLE_SIZE, 0, reqs);
    var out := Drain(records, 0, reqs).0;
    assert |out| == SAMPLE_SIZE;
    assert forall k :: 8 <= k < SAMPLE_SIZE ==> out[k] == ref[0 + k];
    DecodePlaceholderTail(out, t);
  }

  /** When every call sees the same timestamp t, partial reads put together exactly the
      record of the sample stamped t. */
  lemma PartialReadsSameStamp(t: u64, stamps: seq<u64>, reqs: seq<Request>)
    requires |stamps| == |reqs| && Requested(reqs) >= SAMPLE_SIZE
    requires forall i :: 0 <= i < |stamps| ==> stamps[i] == t
    ensures Drain(RecordsAt(stamps), 0, reqs) == (RecordAt(t), SAMPLE_SIZE)
  {
    var records := RecordsAt(stamps);
    assert forall i :: 0 <= i < |records| ==> records[i] == RecordAt(t);
    DrainWholeRecord(RecordAt(t), records, reqs);
  }
}
