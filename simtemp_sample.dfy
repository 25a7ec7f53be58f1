/** `struct simtemp_sample`, the 16-byte record of the data channel, as declared in
    nxp_simtemp.h and again in kernel/nxp_simtemp.h: a packed struct of a u64 monotonic
    timestamp in nanoseconds, an s32 temperature in milli-degrees Celsius and a u32 flag
    word (bit 0 NEW_SAMPLE, bit 1 THRESHOLD_CROSSED). The memory image is taken to be
    little-endian, the byte order of the targets the driver is built for. */
module SimtempSample {
  import opened Bytes
  import opened PackedLayout

  type u64 = x: int | 0 <= x < 0x1_0000_0000_0000_0000
  type s32 = x: int | -0x8000_0000 <= x < 0x8000_0000
  type u32 = x: int | 0 <= x < 0x1_0000_0000

  const U64: Scalar := Scalar(8, false)
  const S32: Scalar := Scalar(4, true)
  const U32: Scalar := Scalar(4, false)

  /** The field list of `struct simtemp_sample` in nxp_simtemp.h. */
  const SampleLayout: Layout := [U64, S32, U32]

  /** The field list of `struct simtemp_sample` in kernel/nxp_simtemp.h. */
  const KernelSampleLayout: Layout := [U64, S32, U32]

  /** sizeof(struct simtemp_sample). */
  const SAMPLE_SIZE: nat := 16

  datatype Sample = Sample(timestampNs: u64, tempMilliC: s32, flags: u32)

  /** The flag bits of the flag word. */
  datatype Flag = NewSample | ThresholdCrossed

  function FlagBit(f: Flag): nat
  {
    match f
    case NewSample => 0
    case ThresholdCrossed => 1
  }

  /** The single-bit mask 1 << FlagBit(f). */
  function FlagMask(f: Flag): nat
  {
    Pow2(FlagBit(f))
  }

  predicate IsSet(flags: nat, f: Flag)
  {
    Bit(flags, FlagBit(f))
  }

  /** The flag word with exactly the given flags set. */
  function FlagWord(newSample: bool, crossed: bool): (w: u32)
    ensures IsSet(w, NewSample) == newSample && IsSet(w, ThresholdCrossed) == crossed
    ensures forall k: nat :: k >= 2 ==> !Bit(w, k)
  {
    var w := (if newSample then 1 else 0) + (if crossed then 2 else 0);
    assert Bit(w, 1) == Bit(w / 2, 0);
    assert forall k: nat :: k >= 2 ==> !Bit(w, k) by {
      forall k: nat | k >= 2 ensures !Bit(w, k) {
        assert Bit(w, k) == Bit(w / 2, k - 1) == Bit(w / 4, k - 2);
        NoBitOfZero(k - 2);
      }
    }
    w
  }

  /** The three field values in declaration order. */
  function Fields(s: Sample): (vals: seq<int>)
    ensures Fits(SampleLayout, vals)
  {
    Pow256Values();
    [s.timestampNs, s.tempMilliC, s.flags]
  }

  /** The record's layout is packed: 8 + 4 + 4 bytes, fields at offsets 0, 8 and 12. */
  lemma SampleLayoutIsPacked()
    ensures Size(SampleLayout) == SAMPLE_SIZE
    ensures Offset(SampleLayout, 0) == 0
    ensures Offset(SampleLayout, 1) == 8
    ensures Offset(SampleLayout, 2) == 12
    ensures Offset(SampleLayout, 3) == SAMPLE_SIZE
  {
    var l := SampleLayout;
    assert l[..0] == [];
    assert l[..1] == [U64] && l[..2] == [U64, S32] && l[..3] == l;
    assert Size([U64]) == 8;
    assert Size([U64, S32]) == 8 + Size([S32]) == 12;
    assert l[1..] == [S32, U32] && [S32, U32][1..] == [U32];
    assert Size(l) == 8 + Size([S32, U32]) == 12 + Size([U32]) == 16;
  }

  /** The record's bytes as they sit in memory: what `(u8 *)&s` points at. */
  function Encode(s: Sample): (bs: seq<byte>)
    ensures |bs| == SAMPLE_SIZE
  {
    SampleLayoutIsPacked();
    Pack(SampleLayout, Fields(s))
  }

  /** The sample a 16-byte record holds: the one whose image it is. */
  function Decode(bs: seq<byte>): (s: Sample)
    requires |bs| == SAMPLE_SIZE
    ensures Encode(s) == bs
  {
    SampleLayoutIsPacked();
    Pow256Values();
    var vals := Unpack(SampleLayout, bs);
    PackOfUnpack(SampleLayout, bs);
    var s := Sample(vals[0], vals[1], vals[2]);
    assert Fields(s) == vals;
    s
  }

  lemma DecodeOfEncode(s: Sample)
    ensures Decode(Encode(s)) == s
  {
    SampleLayoutIsPacked();
    UnpackOfPack(SampleLayout, Fields(s));
  }

  /** The fields of a decoded record are the values unpacked from it. */
  lemma FieldsOfDecode(bs: seq<byte>)
    requires |bs| == SAMPLE_SIZE
    ensures Size(SampleLayout) == SAMPLE_SIZE
    ensures Fields(Decode(bs)) == Unpack(SampleLayout, bs)
  {
    SampleLayoutIsPacked();
  }

  /** Where each field sits: the timestamp as an unsigned little-endian u64 in bytes 0..8,
      the temperature in two's complement in bytes 8..12, the flags in bytes 12..16. */
  lemma EncodeFieldOffsets(s: Sample)
    ensures Encode(s)[0..8] == LittleEndian(s.timestampNs, 8)
    ensures Encode(s)[8..12] == EncodeScalar(S32, s.tempMilliC)
    ensures Encode(s)[12..16] == LittleEndian(s.flags, 4)
  {
    SampleLayoutIsPacked();
    PackFieldAt(SampleLayout, Fields(s), 0);
    PackFieldAt(SampleLayout, Fields(s), 1);
    PackFieldAt(SampleLayout, Fields(s), 2);
  }

  /** Decoding reads the temperature only from bytes 8..12 and the flags only from
      bytes 12..16. */
  lemma DecodeFieldOffsets(bs: seq<byte>)
    requires |bs| == SAMPLE_SIZE
    ensures Decode(bs).timestampNs == FromLittleEndian(bs[0..8])
    ensures Decode(bs).tempMilliC == DecodeScalar(S32, bs[8..12])
    ensures Decode(bs).flags == FromLittleEndian(bs[12..16])
  {
    SampleLayoutIsPacked();
    UnpackFieldAt(SampleLayout, bs, 0);
    UnpackFieldAt(SampleLayout, bs, 1);
    UnpackFieldAt(SampleLayout, bs, 2);
  }

  /** The two copies of the header declare the same packed layout, so a record written
      with either one is decoded unchanged with the other. */
  lemma KernelHeaderAgrees(s: Sample, bs: seq<byte>)
    requires |bs| == SAMPLE_SIZE
    ensures Size(KernelSampleLayout) == SAMPLE_SIZE
    ensures Fits(KernelSampleLayout, Fields(s))
    ensures Pack(KernelSampleLayout, Fields(s)) == Encode(s)
    ensures Unpack(KernelSampleLayout, Encode(s)) == Fields(s)
    ensures Unpack(KernelSampleLayout, bs) == Fields(Decode(bs))
  {
    SampleLayoutIsPacked();
    assert KernelSampleLayout == SampleLayout;
    UnpackOfPack(SampleLayout, Fields(s));
    FieldsOfDecode(bs);
  }
}
