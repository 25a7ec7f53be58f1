/** The record decoding of cli/simtemp_cli.py: `REC = struct.Struct("=Q i I")`, the flag
    masks FLAG_NEW and FLAG_THRESH, and the branch of the poll loop that turns one read
    of the device into a report (short read, or timestamp, temperature and alert). */
module SimtempCli {
  import opened Wrappers
  import opened Bytes
  import opened PackedLayout
  import opened SimtempSample
  import SimtempDriver

  /** The format string of REC. */
  const REC_FORMAT: string := "=Q i I"

  /** FLAG_NEW = 1 << 0 and FLAG_THRESH = 1 << 1. */
  const FLAG_NEW: nat := Pow2(0)
  const FLAG_THRESH: nat := Pow2(1)

  /** The field a format character stands for, with the standard sizes that a
      byte-order prefix selects. */
  function CodeScalar(c: char): (r: Option<Scalar>)
    ensures r.Some? ==> r.value.width in {1, 2, 4, 8}
  {
    match c
    case 'b' => Some(Scalar(1, true))
    case 'B' => Some(Scalar(1, false))
    case 'h' => Some(Scalar(2, true))
    case 'H' => Some(Scalar(2, false))
    case 'i' => Some(Scalar(4, true))
    case 'I' => Some(Scalar(4, false))
    case 'l' => Some(Scalar(4, true))
    case 'L' => Some(Scalar(4, false))
    case 'q' => Some(Scalar(8, true))
    case 'Q' => Some(Scalar(8, false))
    case _ => None
  }

  /** Whitespace between format characters is ignored. */
  predicate IsFormatSpace(c: char)
  {
    c == ' ' || c == '\t' || c == '\n' || c == '\r' || c == '\U{000B}' || c == '\U{000C}'
  }

  /** Every field has one of the standard sizes. */
  predicate Describable(l: Layout)
  {
    forall i :: 0 <= i < |l| ==> l[i].width in {1, 2, 4, 8}
  }

  /** The fields named by the format characters after the prefix. */
  function ParseCodes(s: string): (r: Option<Layout>)
    ensures r.Some? ==> Describable(r.value) && |r.value| <= |s|
  {
    if s == [] then Some([])
    else if IsFormatSpace(s[0]) then ParseCodes(s[1..])
    else match (CodeScalar(s[0]), ParseCodes(s[1..]))
      case (Some(t), Some(rest)) =>
        assert forall i :: 1 <= i < |[t] + rest| ==> ([t] + rest)[i] == rest[i - 1];
        Some([t] + rest)
      case _ => None
  }

  /** The layout struct.Struct(fmt) describes. The prefixes '=' (native order; taken as
      little-endian) and '<' both mean standard sizes and no alignment padding. */
  function CompileFormat(fmt: string): (r: Option<Layout>)
    ensures r.Some? ==> |fmt| > 0 && (fmt[0] == '=' || fmt[0] == '<')
    ensures r.Some? ==> Describable(r.value) && |r.value| < |fmt|
  {
    if |fmt| > 0 && (fmt[0] == '=' || fmt[0] == '<') then ParseCodes(fmt[1..]) else None
  }

  /** The canonical format character of a field that has one. */
  function ScalarCode(t: Scalar): (c: char)
    requires t.width in {1, 2, 4, 8}
    ensures CodeScalar(c) == Some(t) && !IsFormatSpace(c)
  {
    match (t.width, t.signed)
    case (1, true) => 'b'
    case (1, false) => 'B'
    case (2, true) => 'h'
    case (2, false) => 'H'
    case (4, true) => 'i'
    case (4, false) => 'I'
    case (8, true) => 'q'
    case (8, false) => 'Q'
  }

  /** The codes of l, separated by single spaces. */
  function Codes(l: Layout): string
    requires Describable(l)
  {
    if l == [] then ""
    else if |l| == 1 then [ScalarCode(l[0])]
    else [ScalarCode(l[0]), ' '] + Codes(l[1..])
  }

  /** A format string written out from a layout compiles back to that layout. */
  lemma {:induction false} ParseCodesOfCodes(l: Layout)
    requires Describable(l)
    ensures ParseCodes(Codes(l)) == Some(l)
  {
    if l != [] {
      ParseCodesOfCodes(l[1..]);
      var c := ScalarCode(l[0]);
      if |l| == 1 {
        var one := [c];
        assert one[0] == c && one[1..] == [];
        assert CodeScalar(c) == Some(l[0]) && !IsFormatSpace(c);
        assert ParseCodes(one[1..]) == Some([]);
        assert ParseCodes(one) == Some([l[0]] + []);
        assert Codes(l) == one && [l[0]] + [] == l;
      } else {
        var s := [c, ' '] + Codes(l[1..]);
        assert s == Codes(l);
        assert s[1..][0] == ' ' && s[1..][1..] == Codes(l[1..]);
        assert ParseCodes(s[1..]) == Some(l[1..]);
        assert [l[0]] + l[1..] == l;
      }
    }
  }

  /** A standard-size prefix followed by the codes of a layout compiles to that layout. */
  lemma CompileFormatOfCodes(prefix: char, l: Layout)
    requires prefix == '=' || prefix == '<'
    requires Describable(l)
    ensures CompileFormat([prefix] + Codes(l)) == Some(l)
  {
    var fmt := [prefix] + Codes(l);
    assert fmt[0] == prefix && fmt[1..] == Codes(l);
    ParseCodesOfCodes(l);
  }

  /** REC's format is the header's record layout, 16 bytes with fields at 0, 8 and 12. */
  lemma RecFormatIsSampleLayout()
    ensures CompileFormat(REC_FORMAT) == Some(SampleLayout)
    ensures Size(SampleLayout) == SAMPLE_SIZE
  {
    SampleLayoutIsPacked();
    assert Describable(SampleLayout);
    var l := SampleLayout;
    assert l[1..] == [S32, U32] && l[1..][1..] == [U32];
    assert ScalarCode(U64) == 'Q' && ScalarCode(S32) == 'i' && ScalarCode(U32) == 'I';
    assert Codes([U32]) == "I";
    assert Codes([S32, U32]) == ['i', ' '] + Codes([U32]) == "i I";
    assert Codes(l) == ['Q', ' '] + Codes([S32, U32]) == "Q i I";
    CompileFormatOfCodes('=', l);
    assert REC_FORMAT == ['='] + "Q i I";
  }

  /** REC.unpack(data): struct.error (None) unless data is exactly REC.size bytes. */
  function StructUnpack(l: Layout, data: seq<byte>): (r: Option<seq<int>>)
    ensures r.Some? <==> |data| == Size(l)
    ensures r.Some? ==> Fits(l, r.value) && Pack(l, r.value) == data
  {
    if |data| != Size(l) then None
    else
      PackOfUnpack(l, data);
      Some(Unpack(l, data))
  }

  /** `1 if (flags & FLAG_THRESH) else 0`. */
  function Alert(flags: nat): (a: nat)
    ensures a <= 1 && (a == 1 <==> IsSet(flags, ThresholdCrossed))
  {
    BitAndSingleBit(flags, 1);
    if BitAnd(flags, FLAG_THRESH) != 0 then 1 else 0
  }

  /** The CLI's flag masks are the header's bit assignment. */
  lemma FlagConstantsMatchHeader()
    ensures FLAG_NEW == FlagMask(NewSample) == 1
    ensures FLAG_THRESH == FlagMask(ThresholdCrossed) == 2
  {
  }

  /** What the read branch of the poll loop makes of one os.read result. */
  datatype Report = ShortRead | Reading(timestampNs: int, tempMilliC: int, alert: nat)

  function ReadBranch(data: seq<byte>): (r: Report)
    ensures r.ShortRead? <==> |data| != SAMPLE_SIZE
    ensures r.Reading? ==>
              var s := Decode(data);
              r == Reading(s.timestampNs, s.tempMilliC, if IsSet(s.flags, ThresholdCrossed) then 1 else 0)
  {
    RecFormatIsSampleLayout();
    var rec := CompileFormat(REC_FORMAT).value;
    if |data| != Size(rec) then ShortRead
    else
      var vals := StructUnpack(rec, data).value;
      Reading(vals[0], vals[1], Alert(vals[2]))
  }

  /** Reading then decoding recovers each field of the record written, whatever its
      flags: the CLI and the driver agree on the layout. */
  lemma ReadBranchOfRecord(s: Sample)
    ensures ReadBranch(Encode(s)) ==
              Reading(s.timestampNs, s.tempMilliC, if IsSet(s.flags, ThresholdCrossed) then 1 else 0)
  {
    DecodeOfEncode(s);
  }

  /** Against the skeleton driver, a 16-byte read reports the placeholder temperature
      with no alert, and the EOF read that follows (no bytes) is a short read. */
  lemma CliAgainstSkeletonDriver(t: u64)
    ensures ReadBranch(SimtempDriver.RecordAt(t)) == Reading(t, 42123, 0)
    ensures ReadBranch([]) == ShortRead
  {
  }
}
