/** The helpers of tests/simtemp_gtest.cpp that work on text: SysfsPath, the trailing
    line-end trim of ReadFile, the payload WriteAttr sends, and ReadStats, which reads
    `key=value` lines with std::getline and std::stoll. File contents, open failures and
    write results are parameters. */
module SimtempTestHelpers {
  import opened Wrappers

  /** kSysfsBase. */
  const SYSFS_BASE: string := "/sys/class/misc/simtemp"

  /** The errno value of EIO; WriteAttr returns its negation. */
  const EIO: nat := 5

  type Errno = e: nat | e > 0 witness 1

  /** The exceptions the helpers can throw: std::runtime_error from ReadFile, and
      std::invalid_argument and std::out_of_range from std::stoll and std::stoi. */
  datatype Failure = RuntimeError(message: string) | InvalidArgument | OutOfRange

  // ---------------------------------------------------------------- SysfsPath

  function SysfsPath(attr: string): (p: string)
    ensures |p| == |SYSFS_BASE| + 1 + |attr|
    ensures p[..|SYSFS_BASE|] == SYSFS_BASE && p[|SYSFS_BASE|] == '/'
    ensures p[|SYSFS_BASE| + 1..] == attr
  {
    SYSFS_BASE + "/" + attr
  }

  /** Different attributes live at different paths. */
  lemma SysfsPathInjective(a: string, b: string)
    requires SysfsPath(a) == SysfsPath(b)
    ensures a == b
  {
    assert a == SysfsPath(a)[|SYSFS_BASE| + 1..];
  }

  // ---------------------------------------------------------------- ReadFile

  predicate IsLineEnd(c: char)
  {
    c == '\n' || c == '\r'
  }

  /** The longest prefix of s that does not end in '\n' or '\r'. */
  function TrimLineEnds(s: string): (r: string)
    ensures |r| <= |s| && r == s[..|r|]
    ensures r == [] || !IsLineEnd(r[|r| - 1])
    ensures forall k :: |r| <= k < |s| ==> IsLineEnd(s[k])
  {
    if s != [] && IsLineEnd(s[|s| - 1]) then TrimLineEnds(s[..|s| - 1]) else s
  }

  /** TrimLineEnds(s) is the only prefix of s that does not end in a line end and is
      followed by line ends alone. */
  lemma TrimLineEndsUnique(s: string, p: string)
    requires |p| <= |s| && p == s[..|p|]
    requires p == [] || !IsLineEnd(p[|p| - 1])
    requires forall k :: |p| <= k < |s| ==> IsLineEnd(s[k])
    ensures p == TrimLineEnds(s)
  {
  }

  lemma TrimLineEndsIdempotent(s: string)
    ensures TrimLineEnds(TrimLineEnds(s)) == TrimLineEnds(s)
  {
  }

  /** ReadFile(path): contents is the file's text, or None when it cannot be opened. */
  method ReadFile(path: string, contents: Option<string>) returns (r: Result<string, Failure>)
    ensures contents.None? ==> r == Err(RuntimeError("Failed to open " + path + " for reading"))
    ensures contents.Some? ==> r == Ok(TrimLineEnds(contents.value))
  {
    if contents.None? {
      return Err(RuntimeError("Failed to open " + path + " for reading"));
    }
    var s := contents.value;
    while s != [] && IsLineEnd(s[|s| - 1])
      invariant TrimLineEnds(s) == TrimLineEnds(contents.value)
      decreases |s|
    {
      s := s[..|s| - 1];
    }
    return Ok(s);
  }

  /** ReadAttr(attr): the attribute file's text, trimmed. */
  method ReadAttr(attr: string, contents: Option<string>) returns (r: Result<string, Failure>)
    ensures contents.None? ==> r == Err(RuntimeError("Failed to open " + SysfsPath(attr) + " for reading"))
    ensures contents.Some? ==> r == Ok(TrimLineEnds(contents.value))
  {
    r := ReadFile(SysfsPath(attr), contents);
  }

  /** ReadAttrInt(attr): std::stoi of the trimmed attribute text. */
  method ReadAttrInt(attr: string, contents: Option<string>) returns (r: Result<int, Failure>)
    ensures contents.None? ==> r == Err(RuntimeError("Failed to open " + SysfsPath(attr) + " for reading"))
    ensures contents.Some? ==> r == Stoi(TrimLineEnds(contents.value))
  {
    var text := ReadAttr(attr, contents);
    if text.Err? {
      return Err(text.error);
    }
    r := Stoi(text.value);
  }

  // ---------------------------------------------------------------- WriteAttr

  /** The payload WriteAttr writes: the value, newline-terminated unless it is empty. */
  function Payload(value: string): (p: string)
    ensures value == [] ==> p == []
    ensures value != [] ==> p != [] && p[|p| - 1] == '\n'
    ensures |value| <= |p| <= |value| + 1 && p[..|value|] == value
    ensures value != [] && value[|value| - 1] == '\n' ==> p == value
  {
    if value == [] || value[|value| - 1] == '\n' then value else value + "\n"
  }

  lemma PayloadIdempotent(value: string)
    ensures Payload(Payload(value)) == Payload(value)
  {
  }

  /** What ::write reports: a byte count, or failure with an errno. */
  datatype WriteOutcome = Wrote(count: nat) | WriteFailed(errno: Errno)

  /** WriteAttr(attr, value). openErrno is the errno of a failed ::open (None when it
      succeeds); write is what ::write reports. Returns the status, the path opened and
      the bytes handed to ::write (None when nothing was written). */
  method WriteAttr(attr: string, value: string, openErrno: Option<Errno>, write: WriteOutcome)
    returns (status: int, path: string, sent: Option<string>)
    ensures path == SysfsPath(attr)
    ensures openErrno.Some? ==> status == -(openErrno.value as int) && sent == None
    ensures openErrno.None? ==> sent == Some(Payload(value))
    ensures openErrno.None? && write.WriteFailed? ==> status == -(write.errno as int)
    ensures openErrno.None? && write.Wrote? && write.count != |Payload(value)| ==> status == -(EIO as int)
    ensures status == 0 <==> openErrno.None? && write == Wrote(|Payload(value)|)
  {
    path := SysfsPath(attr);
    if openErrno.Some? {
      return -(openErrno.value as int), path, None;
    }
    var payload := value;
    if |payload| > 0 && payload[|payload| - 1] != '\n' {
      payload := payload + ['\n'];
    }
    sent := Some(payload);
    match write
    case WriteFailed(e) =>
      status := -(e as int);
    case Wrote(n) =>
      status := if n != |payload| then -(EIO as int) else 0;
  }

  // ---------------------------------------------------------------- std::stoll, std::stoi

  const LLONG_MIN: int := -0x8000_0000_0000_0000
  const LLONG_MAX: int := 0x7FFF_FFFF_FFFF_FFFF
  const INT_MIN: int := -0x8000_0000
  const INT_MAX: int := 0x7FFF_FFFF

  /** isspace in the C locale. */
  predicate IsSpace(c: char)
  {
    c == ' ' || c == '\t' || c == '\n' || c == '\r' || c == '\U{000B}' || c == '\U{000C}'
  }

  predicate IsDigit(c: char)
  {
    '0' <= c <= '9'
  }

  predicate AllDigits(s: string)
  {
    forall k :: 0 <= k < |s| ==> IsDigit(s[k])
  }

  /** s without its leading whitespace. */
  function SkipSpaces(s: string): (r: string)
    ensures |r| <= |s| && r == s[|s| - |r|..]
    ensures r == [] || !IsSpace(r[0])
  {
    if s != [] && IsSpace(s[0]) then SkipSpaces(s[1..]) else s
  }

  /** The length of the run of digits s starts with. */
  function DigitRun(s: string): (n: nat)
    ensures n <= |s| && AllDigits(s[..n])
    ensures n < |s| ==> !IsDigit(s[n])
  {
    if s == [] || !IsDigit(s[0]) then 0
    else
      var n := 1 + DigitRun(s[1..]);
      assert forall k :: 1 <= k < n ==> s[..n][k] == s[1..][..n - 1][k - 1];
      n
  }

  /** The number a string of decimal digits denotes. */
  function DecimalValue(ds: string): nat
    requires AllDigits(ds)
  {
    if ds == [] then 0
    else DecimalValue(ds[..|ds| - 1]) * 10 + (ds[|ds| - 1] as int - '0' as int)
  }

  /** A number's text as strtoll in base 10 scans it: leading whitespace skipped, an
      optional sign, then the longest run of digits; whatever follows is ignored. */
  datatype Scanned = Scanned(negative: bool, digits: string)

  function Scan(text: string): (sc: Scanned)
    ensures AllDigits(sc.digits)
  {
    var t := SkipSpaces(text);
    var signed := t != [] && (t[0] == '-' || t[0] == '+');
    var u := if signed then t[1..] else t;
    Scanned(signed && t[0] == '-', u[..DigitRun(u)])
  }

  /** std::stoll and std::stoi: no digit at all is invalid_argument; a value outside
      [lo, hi] is out_of_range. */
  function ParseInteger(text: string, lo: int, hi: int): (r: Result<int, Failure>)
    ensures r.Ok? || r == Err(InvalidArgument) || r == Err(OutOfRange)
    ensures r.Ok? ==> lo <= r.value <= hi
  {
    var sc := Scan(text);
    if sc.digits == [] then Err(InvalidArgument)
    else
      var magnitude := DecimalValue(sc.digits);
      var v := if sc.negative then 0 - magnitude else magnitude;
      if lo <= v <= hi then Ok(v) else Err(OutOfRange)
  }

  function Stoll(text: string): (r: Result<int, Failure>)
    ensures r.Ok? || r == Err(InvalidArgument) || r == Err(OutOfRange)
    ensures r.Ok? ==> LLONG_MIN <= r.value <= LLONG_MAX
  {
    ParseInteger(text, LLONG_MIN, LLONG_MAX)
  }

  function Stoi(text: string): (r: Result<int, Failure>)
    ensures r.Ok? || r == Err(InvalidArgument) || r == Err(OutOfRange)
    ensures r.Ok? ==> INT_MIN <= r.value <= INT_MAX
  {
    ParseInteger(text, INT_MIN, INT_MAX)
  }

  /** The decimal digits of n, most significant first, without leading zeros. */
  function Digits(n: nat): (ds: string)
    ensures ds != [] && AllDigits(ds)
    decreases n
  {
    var last := ('0' as int + n % 10) as char;
    if n < 10 then [last] else Digits(n / 10) + [last]
  }

  lemma {:induction false} DecimalValueOfDigits(n: nat)
    ensures DecimalValue(Digits(n)) == n
    decreases n
  {
    var ds := Digits(n);
    if n >= 10 {
      DecimalValueOfDigits(n / 10);
      assert ds[..|ds| - 1] == Digits(n / 10);
    }
  }

  /** n as "%lld" prints it. */
  function DecimalText(n: int): (s: string)
    ensures s != [] && IsDigit(s[|s| - 1])
    ensures forall k :: 0 <= k < |s| ==> s[k] == '-' || IsDigit(s[k])
  {
    if n < 0 then "-" + Digits(-n) else Digits(n)
  }

  /** Parsing undoes printing, also when other text follows that does not start with a
      digit: the value of a well-formed `key=<decimal>` line is read back exactly. */
  lemma ParseIntegerOfDecimalText(n: int, rest: string, lo: int, hi: int)
    requires lo <= n <= hi
    requires rest == [] || !IsDigit(rest[0])
    ensures ParseInteger(DecimalText(n) + rest, lo, hi) == Ok(n)
  {
    if n < 0 {
      ParseIntegerOfNegative(-n, rest, lo, hi);
    } else {
      ParseIntegerOfUnsigned(n, rest, lo, hi);
    }
  }

  lemma ParseIntegerOfUnsigned(m: nat, rest: string, lo: int, hi: int)
    requires lo <= m <= hi
    requires rest == [] || !IsDigit(rest[0])
    ensures ParseInteger(DecimalText(m) + rest, lo, hi) == Ok(m)
  {
    assert DecimalText(m) == Digits(m);
    ScanOfDigits(Digits(m), rest);
    DecimalValueOfDigits(m);
  }

  lemma ParseIntegerOfNegative(m: nat, rest: string, lo: int, hi: int)
    requires m > 0 && lo <= -(m as int) <= hi
    requires rest == [] || !IsDigit(rest[0])
    ensures ParseInteger(DecimalText(-(m as int)) + rest, lo, hi) == Ok(-(m as int))
  {
    assert DecimalText(-(m as int)) + rest == "-" + (Digits(m) + rest);
    ScanOfNegative(Digits(m), rest);
    DecimalValueOfDigits(m);
  }

  /** std::stoll reads back what "%lld" prints. */
  lemma StollOfDecimalText(n: int)
    requires LLONG_MIN <= n <= LLONG_MAX
    ensures Stoll(DecimalText(n)) == Ok(n)
  {
    ParseIntegerOfDecimalText(n, [], LLONG_MIN, LLONG_MAX);
    assert DecimalText(n) + [] == DecimalText(n);
  }

  /** Text that starts with a digit is scanned as an unsigned number. */
  lemma ScanOfDigits(ds: string, rest: string)
    requires AllDigits(ds) && ds != [] && (rest == [] || !IsDigit(rest[0]))
    ensures Scan(ds + rest) == Scanned(false, ds)
  {
    var u := ds + rest;
    assert u[0] == ds[0];
    ScanOfUnsigned(u);
    DigitRunOfDigits(ds, rest);
    assert u[..|ds|] == ds;
  }

  /** Text that starts with a digit has no whitespace or sign to skip. */
  lemma ScanOfUnsigned(u: string)
    requires u != [] && IsDigit(u[0])
    ensures Scan(u) == Scanned(false, u[..DigitRun(u)])
  {
    assert SkipSpaces(u) == u;
  }

  /** Text that starts with '-' and a digit is scanned as a negative number. */
  lemma ScanOfNegative(ds: string, rest: string)
    requires AllDigits(ds) && ds != [] && (rest == [] || !IsDigit(rest[0]))
    ensures Scan("-" + (ds + rest)) == Scanned(true, ds)
  {
    var u := ds + rest;
    var text := "-" + u;
    assert text[0] == '-' && text[1..] == u;
    assert SkipSpaces(text) == text;
    DigitRunOfDigits(ds, rest);
    assert u[..|ds|] == ds;
  }

  /** The digit run of a digit string followed by a non-digit is that digit string. */
  lemma DigitRunOfDigits(ds: string, rest: string)
    requires AllDigits(ds) && (rest == [] || !IsDigit(rest[0]))
    ensures DigitRun(ds + rest) == |ds|
  {
    var u := ds + rest;
    assert forall k :: 0 <= k < |ds| ==> u[k] == ds[k];
    assert |ds| < |u| ==> u[|ds|] == rest[0];
  }

  // ---------------------------------------------------------------- ReadStats

  /** The index of the first c in s, as std::string::find returns it. */
  function FindFirst(s: string, c: char): (r: Option<nat>)
    ensures r.Some? ==> r.value < |s| && s[r.value] == c && c !in s[..r.value]
    ensures r.None? ==> c !in s
  {
    if s == [] then None
    else if s[0] == c then Some(0)
    else match FindFirst(s[1..], c)
      case None => None
      case Some(i) =>
        assert s[..i + 1] == [s[0]] + s[1..][..i];
        Some(i + 1)
  }

  /** The first c in s is at the only index i with s[i] == c and no c before it. */
  lemma FindFirstAt(s: string, c: char, i: nat)
    requires i < |s| && s[i] == c && c !in s[..i]
    ensures FindFirst(s, c) == Some(i)
  {
    assert s[..i + 1][i] == c;
  }

  /** The lines std::getline extracts from text: pieces between '\n's, the last one kept
      only when it is not empty. */
  function Lines(text: string): (ls: seq<string>)
    decreases |text|
  {
    if text == [] then []
    else match FindFirst(text, '\n')
      case None => [text]
      case Some(i) => [text[..i]] + Lines(text[i + 1..])
  }

  /** No line holds a '\n'. */
  lemma {:induction false} LinesHaveNoNewline(text: string)
    ensures forall i :: 0 <= i < |Lines(text)| ==> '\n' !in Lines(text)[i]
    decreases |text|
  {
    if text != [] {
      match FindFirst(text, '\n')
      case None =>
      case Some(i) =>
        var tail := text[i + 1..];
        LinesHaveNoNewline(tail);
        var ls := [text[..i]] + Lines(tail);
        assert Lines(text) == ls;
        forall j | 0 <= j < |ls| ensures '\n' !in ls[j] {
          if j > 0 {
            assert ls[j] == Lines(tail)[j - 1];
          }
        }
    }
  }

  /** Every line followed by '\n'. */
  function JoinLines(ls: seq<string>): string
  {
    if ls == [] then "" else ls[0] + "\n" + JoinLines(ls[1..])
  }

  /** Joining a line in front of other lines. */
  lemma JoinLinesCons(line: string, ls: seq<string>)
    ensures JoinLines([line] + ls) == line + "\n" + JoinLines(ls)
  {
    assert ([line] + ls)[0] == line && ([line] + ls)[1..] == ls;
  }

  /** A text cut at one of its '\n's. */
  lemma SplitAtNewline(text: string, i: nat)
    requires i < |text| && text[i] == '\n'
    ensures text == text[..i] + "\n" + text[i + 1..]
  {
  }

  /** The lines put back together give the text, '\n'-terminated. */
  lemma {:induction false} JoinLinesOfLines(text: string)
    ensures JoinLines(Lines(text)) == if text == [] || text[|text| - 1] == '\n' then text else text + "\n"
    decreases |text|
  {
    if text != [] {
      match FindFirst(text, '\n')
      case None =>
        assert text[|text| - 1] != '\n';
      case Some(i) =>
        var line := text[..i];
        var tail := text[i + 1..];
        JoinLinesCons(line, Lines(tail));
        JoinLinesOfLines(tail);
        SplitAtNewline(text, i);
        if tail != [] {
          assert tail[|tail| - 1] == text[|text| - 1];
        }
    }
  }

  /** A line without '\n' and its terminator come off the text as its first line. */
  lemma LinesOfLineThen(line: string, tail: string)
    requires '\n' !in line
    ensures Lines(line + "\n" + tail) == [line] + Lines(tail)
  {
    var text := line + "\n" + tail;
    FindFirstAt(text, '\n', |line|);
    assert text[..|line|] == line;
    assert text[|line| + 1..] == tail;
  }

  /** Splitting a text built from lines without '\n' gives those lines back. */
  lemma {:induction false} LinesOfJoinLines(ls: seq<string>)
    requires forall i :: 0 <= i < |ls| ==> '\n' !in ls[i]
    ensures Lines(JoinLines(ls)) == ls
  {
    if ls != [] {
      LinesOfLineThen(ls[0], JoinLines(ls[1..]));
      LinesOfJoinLines(ls[1..]);
    }
  }

  const TOTAL_SAMPLES: string := "total_samples"
  const THRESHOLD_CROSSINGS: string := "threshold_crossings"

  /** The two keys are distinct and contain neither '=' nor '\n'. */
  lemma CounterKeysArePlain()
    ensures '=' !in TOTAL_SAMPLES && '\n' !in TOTAL_SAMPLES
    ensures '=' !in THRESHOLD_CROSSINGS && '\n' !in THRESHOLD_CROSSINGS
    ensures TOTAL_SAMPLES != THRESHOLD_CROSSINGS
  {
    assert |TOTAL_SAMPLES| != |THRESHOLD_CROSSINGS|;
  }

  /** Stats (SimtempStats): the two counters, 0 until a line sets them. */
  datatype Stats = Stats(totalSamples: int, thresholdCrossings: int)

  /** A line of the stats text: skipped (no '='), or a key and the parse of its value. */
  datatype Entry = Skip | Field(key: string, value: Result<int, Failure>)

  function ParseLine(line: string): (e: Entry)
    ensures e.Skip? <==> '=' !in line
    ensures e.Field? ==> '=' !in e.key && |e.key| < |line| && line[..|e.key|] == e.key &&
                         line[|e.key|] == '=' && e.value == Stoll(line[|e.key| + 1..])
  {
    match FindFirst(line, '=')
    case None => Skip
    case Some(i) =>
      var key := line[..i];
      assert |key| == i && line[..|key|] == key;
      Field(key, Stoll(line[i + 1..]))
  }

  /** The error of the first line whose value does not parse. */
  function FirstFailure(ls: seq<string>): (r: Option<Failure>)
    ensures r.Some? ==> r.value == InvalidArgument || r.value == OutOfRange
  {
    if ls == [] then None
    else
      var prev := FirstFailure(ls[..|ls| - 1]);
      var e := ParseLine(ls[|ls| - 1]);
      if prev.Some? then prev
      else if e.Field? && e.value.Err? then Some(e.value.error)
      else None
  }

  /** The value on the last line with the given key. */
  function LastValue(ls: seq<string>, key: string): (r: Option<int>)
  {
    if ls == [] then None
    else
      var e := ParseLine(ls[|ls| - 1]);
      if e.Field? && e.key == key && e.value.Ok? then Some(e.value.value)
      else LastValue(ls[..|ls| - 1], key)
  }

  function OrZero(v: Option<int>): int
  {
    if v.Some? then v.value else 0
  }

  /** What ReadStats returns for the given lines: the first parse failure, or each
      counter set from the last line with its key, 0 when there is none. */
  function StatsOf(ls: seq<string>): (r: Result<Stats, Failure>)
    ensures r.Err? ==> r.error == InvalidArgument || r.error == OutOfRange
  {
    match FirstFailure(ls)
    case Some(e) => Err(e)
    case None => Ok(Stats(OrZero(LastValue(ls, TOTAL_SAMPLES)), OrZero(LastValue(ls, THRESHOLD_CROSSINGS))))
  }

  /** The counters after a well-formed `key=value` line: the line's value for the
      counter it names, and no change for any other key. */
  function Update(s: Stats, key: string, v: int): Stats
  {
    if key == TOTAL_SAMPLES then s.(totalSamples := v)
    else if key == THRESHOLD_CROSSINGS then s.(thresholdCrossings := v)
    else s
  }

  /** Update sets exactly the counter its key names, each key on its own, and ignores
      any other key. */
  lemma UpdateSetsNamedCounter(s: Stats, key: string, v: int)
    ensures key == TOTAL_SAMPLES ==> Update(s, key, v) == Stats(v, s.thresholdCrossings)
    ensures key == THRESHOLD_CROSSINGS ==> Update(s, key, v) == Stats(s.totalSamples, v)
    ensures key != TOTAL_SAMPLES && key != THRESHOLD_CROSSINGS ==> Update(s, key, v) == s
  {
    CounterKeysArePlain();
  }

  /** Without any line, both counters are 0. */
  lemma StatsOfNoLines()
    ensures StatsOf([]) == Ok(Stats(0, 0))
  {
  }

  /** A line without '=' changes nothing. */
  lemma LineWithoutEqualsIsSkipped(ls: seq<string>, line: string)
    requires '=' !in line
    ensures StatsOf(ls + [line]) == StatsOf(ls)
  {
    assert (ls + [line])[..|ls|] == ls;
  }

  /** One more line: the failure so far, else the line's own parse error. */
  lemma FirstFailureSnoc(ls: seq<string>, line: string)
    ensures FirstFailure(ls + [line]) ==
              if FirstFailure(ls).Some? then FirstFailure(ls)
              else if ParseLine(line).Field? && ParseLine(line).value.Err? then Some(ParseLine(line).value.error)
              else None
  {
    assert (ls + [line])[..|ls|] == ls;
  }

  /** One more line: its value when it sets key, else the value so far. */
  lemma LastValueSnoc(ls: seq<string>, line: string, key: string)
    ensures LastValue(ls + [line], key) ==
              if ParseLine(line).Field? && ParseLine(line).key == key && ParseLine(line).value.Ok?
              then Some(ParseLine(line).value.value)
              else LastValue(ls, key)
  {
    assert (ls + [line])[..|ls|] == ls;
  }

  /** A `key=valueText` line parses to its key and the value of its text. */
  lemma ParseLineOfField(key: string, valueText: string)
    requires '=' !in key
    ensures ParseLine(key + "=" + valueText) == Field(key, Stoll(valueText))
  {
    var line := key + "=" + valueText;
    FindFirstAt(line, '=', |key|);
    assert line[..|key|] == key && line[|key| + 1..] == valueText;
  }

  /** A later `key=value` line overwrites the counter named key (last one wins); a key
      other than the two counters' is ignored. */
  lemma LaterLineWins(ls: seq<string>, key: string, valueText: string, v: int)
    requires '=' !in key && Stoll(valueText) == Ok(v)
    requires StatsOf(ls).Ok?
    ensures StatsOf(ls + [key + "=" + valueText]) == Ok(Update(StatsOf(ls).value, key, v))
  {
    var line := key + "=" + valueText;
    ParseLineOfField(key, valueText);
    FirstFailureSnoc(ls, line);
    LastValueSnoc(ls, line, TOTAL_SAMPLES);
    LastValueSnoc(ls, line, THRESHOLD_CROSSINGS);
  }

  /** A line whose value is not a number makes ReadStats throw, whatever its key. */
  lemma BadValueFails(ls: seq<string>, line: string)
    requires ParseLine(line).Field? && ParseLine(line).value.Err?
    ensures StatsOf(ls + [line]).Err?
  {
    FirstFailureSnoc(ls, line);
  }

  /** A counter no line names stays 0. */
  lemma AbsentCounterIsZero(ls: seq<string>, key: string)
    requires key == TOTAL_SAMPLES || key == THRESHOLD_CROSSINGS
    requires forall i :: 0 <= i < |ls| ==> !(ParseLine(ls[i]).Field? && ParseLine(ls[i]).key == key)
    requires StatsOf(ls).Ok?
    ensures key == TOTAL_SAMPLES ==> StatsOf(ls).value.totalSamples == 0
    ensures key == THRESHOLD_CROSSINGS ==> StatsOf(ls).value.thresholdCrossings == 0
  {
    LastValueAbsent(ls, key);
  }

  lemma {:induction false} LastValueAbsent(ls: seq<string>, key: string)
    requires forall i :: 0 <= i < |ls| ==> !(ParseLine(ls[i]).Field? && ParseLine(ls[i]).key == key)
    ensures LastValue(ls, key) == None
  {
    if ls != [] {
      var prefix := ls[..|ls| - 1];
      assert forall i :: 0 <= i < |prefix| ==> prefix[i] == ls[i];
      LastValueAbsent(prefix, key);
    }
  }

  /** Once a prefix of the lines has a failure, the whole list fails with it. */
  lemma {:induction false} FirstFailureOfPrefix(ls: seq<string>, j: nat)
    requires j <= |ls| && FirstFailure(ls[..j]).Some?
    ensures FirstFailure(ls) == FirstFailure(ls[..j])
    decreases |ls| - j
  {
    if j < |ls| {
      assert ls[..|ls| - 1][..j] == ls[..j];
      FirstFailureOfPrefix(ls[..|ls| - 1], j);
    } else {
      assert ls[..j] == ls;
    }
  }

  /** ReadStats(): statsFile is the text of the stats attribute, or None when it cannot
      be opened. */
  method ReadStats(statsFile: Option<string>) returns (r: Result<Stats, Failure>)
    ensures statsFile.None? ==> r == Err(RuntimeError("Failed to open " + SysfsPath("stats") + " for reading"))
    ensures statsFile.Some? ==> r == StatsOf(Lines(TrimLineEnds(statsFile.value)))
  {
    var text := ReadAttr("stats", statsFile);
    if text.Err? {
      return Err(text.error);
    }
    var lines := Lines(text.value);
    var stats := Stats(0, 0);
    var i := 0;
    while i < |lines|
      invariant 0 <= i <= |lines|
      invariant FirstFailure(lines[..i]).None?
      invariant stats == Stats(OrZero(LastValue(lines[..i], TOTAL_SAMPLES)),
                               OrZero(LastValue(lines[..i], THRESHOLD_CROSSINGS)))
    {
      var line := lines[i];
      assert lines[..i + 1] == lines[..i] + [line];
      FirstFailureSnoc(lines[..i], line);
      LastValueSnoc(lines[..i], line, TOTAL_SAMPLES);
      LastValueSnoc(lines[..i], line, THRESHOLD_CROSSINGS);
      var pos := FindFirst(line, '=');
      if pos.Some? {
        var key := line[..pos.value];
        var value := Stoll(line[pos.value + 1..]);
        assert ParseLine(line) == Field(key, value);
        if value.Err? {
          FirstFailureOfPrefix(lines, i + 1);
          return Err(value.error);
        }
        if key == TOTAL_SAMPLES {
          stats := stats.(totalSamples := value.value);
        } else if key == THRESHOLD_CROSSINGS {
          stats := stats.(thresholdCrossings := value.value);
        }
      }
      i := i + 1;
    }
    assert lines[..i] == lines;
    return Ok(stats);
  }

  /** An int attribute printed as "%d\n" reads back as that int. */
  lemma ReadAttrIntOfPrinted(n: int)
    requires INT_MIN <= n <= INT_MAX
    ensures Stoi(TrimLineEnds(DecimalText(n) + "\n")) == Ok(n)
  {
    var text := DecimalText(n);
    assert (text + "\n")[..|text|] == text;
    TrimLineEndsUnique(text + "\n", text);
    ParseIntegerOfDecimalText(n, [], INT_MIN, INT_MAX);
    assert text + [] == text;
  }

  /** Two lines joined with their terminators. */
  lemma JoinTwoLines(first: string, second: string)
    ensures JoinLines([first, second]) == first + "\n" + second + "\n"
  {
    JoinLinesCons(first, [second]);
    JoinLinesCons(second, []);
    assert [first] + [second] == [first, second] && [second] + [] == [second];
  }

  /** A non-empty text without '\n' is one line. */
  lemma LinesOfOneLine(line: string)
    requires line != [] && '\n' !in line
    ensures Lines(line) == [line]
  {
  }

  /** A two-line text read back through ReadFile's trim and getline. */
  lemma LinesOfTwoLines(first: string, second: string)
    requires '\n' !in first && '\n' !in second
    requires second != [] && !IsLineEnd(second[|second| - 1])
    ensures Lines(TrimLineEnds(JoinLines([first, second]))) == [first, second]
  {
    var kept := first + "\n" + second;
    JoinTwoLines(first, second);
    var text := kept + "\n";
    assert text[..|kept|] == kept;
    TrimLineEndsUnique(text, kept);
    LinesOfLineThen(first, second);
    LinesOfOneLine(second);
    assert [first] + [second] == [first, second];
  }

  /** Two well-formed lines applied in order, after any lines that parse. */
  lemma StatsOfTwoFields(ls: seq<string>, k1: string, t1: string, v1: int, k2: string, t2: string, v2: int)
    requires '=' !in k1 && Stoll(t1) == Ok(v1)
    requires '=' !in k2 && Stoll(t2) == Ok(v2)
    requires StatsOf(ls).Ok?
    ensures StatsOf(ls + [k1 + "=" + t1] + [k2 + "=" + t2]) == Ok(Update(Update(StatsOf(ls).value, k1, v1), k2, v2))
  {
    LaterLineWins(ls, k1, t1, v1);
    LaterLineWins(ls + [k1 + "=" + t1], k2, t2, v2);
  }

  /** The stats text "total_samples=<a>\nthreshold_crossings=<b>\n", with a and b as
      "%lld" prints them, reads back as the counters a and b. */
  lemma ReadStatsOfPrinted(a: int, b: int)
    requires LLONG_MIN <= a <= LLONG_MAX && LLONG_MIN <= b <= LLONG_MAX
    ensures StatsOf(Lines(TrimLineEnds(JoinLines([TOTAL_SAMPLES + "=" + DecimalText(a),
                                                  THRESHOLD_CROSSINGS + "=" + DecimalText(b)])))) == Ok(Stats(a, b))
  {
    StollOfDecimalText(a);
    StollOfDecimalText(b);
    CounterKeysArePlain();
    ReadStatsOfTwoFields(TOTAL_SAMPLES, DecimalText(a), a, THRESHOLD_CROSSINGS, DecimalText(b), b);
  }

  /** Two well-formed `key=value` lines, as a text, read back through ReadFile's trim,
      getline and the per-line parse. */
  lemma ReadStatsOfTwoFields(k1: string, t1: string, v1: int, k2: string, t2: string, v2: int)
    requires '=' !in k1 && '\n' !in k1 && '\n' !in t1 && Stoll(t1) == Ok(v1)
    requires '=' !in k2 && '\n' !in k2 && '\n' !in t2 && Stoll(t2) == Ok(v2)
    requires t2 != [] && !IsLineEnd(t2[|t2| - 1])
    ensures StatsOf(Lines(TrimLineEnds(JoinLines([k1 + "=" + t1, k2 + "=" + t2]))))
            == Ok(Update(Update(Stats(0, 0), k1, v1), k2, v2))
  {
    var first := k1 + "=" + t1;
    var second := k2 + "=" + t2;
    FieldLineIsOneLine(k1, t1);
    FieldLineIsOneLine(k2, t2);
    assert second[|second| - 1] == t2[|t2| - 1];
    LinesOfTwoLines(first, second);
    var ls := Lines(TrimLineEnds(JoinLines([first, second])));
    assert ls == [] + [first] + [second];
    StatsOfNoLines();
    StatsOfTwoFields([], k1, t1, v1, k2, t2, v2);
  }

  /** A `key=value` line built from pieces without '\n' has no '\n'. */
  lemma FieldLineIsOneLine(key: string, valueText: string)
    requires '\n' !in key && '\n' !in valueText
    ensures '\n' !in key + "=" + valueText
  {
    var line := key + "=" + valueText;
    forall k | 0 <= k < |line| ensures line[k] != '\n' {
      if k < |key| {
        assert line[k] == key[k];
      } else if k > |key| {
        assert line[k] == valueText[k - |key| - 1];
      }
    }
  }
}
