# nxp_simtemp: a Dafny model of the skeleton driver's data channel and its readers

nxp_simtemp is a simulated temperature sensor for Linux. It exposes a character device,
`/dev/simtemp`, that delivers packed 16-byte `struct simtemp_sample` records: a u64
monotonic timestamp in nanoseconds, an s32 temperature in milli-degrees Celsius and a u32
flag word (bit 0 NEW_SAMPLE, bit 1 THRESHOLD_CROSSED). Configuration and statistics live
in the sysfs directory `/sys/class/misc/simtemp`. The repository holds:

- a skeleton of the driver, whose read handler builds one placeholder sample per read before EOF;
- a `/dev/hello` example driver;
- a Python CLI that decodes records;
- a gtest suite whose helpers read and write the sysfs attributes.

This project models those pieces and proves what they promise:

- **Char-device reads** (`CharRead`, `SimtempDriver`, `HelloDriver`). `simtemp_read` and
  `hello_read` are methods of classes `SimtempFile` and `HelloFile`. Each class holds the
  file position and each method updates it. Each method is proved equal to the
  offset-window function `CharRead.ReadAt`, which has these cases:
  - EOF at or past the record's end;
  - the count clamped to what is left;
  - `-EFAULT` when copy_to_user fails, which it does only when there is at least one
    byte to copy into a buffer that cannot be written;
  - otherwise the position advanced by the count.
  
  `CharRead.Drain` folds a run of reads. Lemmas over it show:
  - partial reads neither skip nor repeat bytes;
  - `/dev/hello` yields its 22-byte message exactly once;
  - a partial-read sequence on `/dev/simtemp` assembles a record with the placeholder
    temperature and flags, even though each call stamps its own timestamp.
- **The record layout** (`PackedLayout`, `SimtempSample`). This is a generic packed
  struct: little-endian fields with two's-complement signed fields and no padding. It
  comes with pack/unpack round trips and field-offset lemmas. The sample is that layout
  with fields `[u64, s32, u32]`. Both copies of the header are shown to agree.
- **The CLI's decoding** (`SimtempCli`). The format string `"=Q i I"` is compiled to a
  layout and proved to be the header's layout. The model also covers the short-read
  branch, `REC.unpack`, and the alert bit `flags & FLAG_THRESH`.
- **The gtest helpers** (`SimtempTestHelpers`):
  - `SysfsPath`;
  - `ReadFile`'s trailing `\n`/`\r` trim, as a loop method;
  - `WriteAttr`'s newline-terminated payload and its error statuses;
  - `ReadAttr` and `ReadAttrInt` (std::stoi);
  - `ReadStats`, which reads lines with std::getline, splits each into `key=value` and
    parses the value with std::stoll, as a loop method.

  std::stoll and std::stoi are modelled in the way they scan text:
  - leading whitespace is skipped;
  - an optional sign is read, then the longest run of digits;
  - the error is `invalid_argument` when there are no digits and `out_of_range` outside
    the type's range.

The model fixes the byte order of the target as little-endian, and with it what `=` selects
in Python's struct module.

The behaviour modelled is the code's. The sources describe a richer engine that rejects a
read shorter than one record with `EINVAL`, and the test at
`tests/simtemp_gtest.cpp` lines 260-273 expects it. `simtemp_read` as written allows
partial reads, with the comment "allow partial reads", and the model follows it. The
lemma `SimtempDriver.PartialReadsKeepTemperatureAndFlags` states what such reads deliver.

The modules, one file each, are as follows.

| file | module |
|---|---|
| `bytes.dfy` | `Bytes` |
| `packed_layout.dfy` | `PackedLayout` |
| `simtemp_sample.dfy` | `SimtempSample` |
| `char_read.dfy` | `CharRead` |
| `simtemp_driver.dfy` | `SimtempDriver` |
| `hello_driver.dfy` | `HelloDriver` |
| `simtemp_cli.dfy` | `SimtempCli` |
| `test_helpers.dfy` | `SimtempTestHelpers` |
| `wrappers.dfy` | `Wrappers` (Option and Result) |

Inputs the code takes from the outside world become parameters:
- the value `ktime_get_ns` returns;
- whether the caller's buffer can be written, which decides whether `copy_to_user`
  succeeds;
- a file's contents, or that it cannot be opened;
- the errno of a failed `::open`;
- the outcome of `::write`.

## Model

| member | source | states |
|---|---|---|
| Bytes.FromLittleEndianOfLittleEndian | nxp_simtemp.h:4-8 | reading back the n-byte little-endian image of a value below 256^n gives that value |
| Bytes.LittleEndianOfFromLittleEndian | nxp_simtemp.h:4-8 | every byte string is the little-endian image, at its own length, of the number it denotes |
| Bytes.BitAndSingleBit | cli/simtemp_cli.py:54 | `a & (1 << k)` is non-zero exactly when bit k of a is set, in both directions |
| PackedLayout.Unpack | nxp_simtemp.h:4-8 | the values read from a packed struct's bytes each lie in the range of their field's type |
| PackedLayout.Pack | nxp_simtemp.h:4-8 | the memory image of a packed struct is exactly as long as the sum of its field widths (its contents are fixed by PackFieldAt) |
| PackedLayout.DecodeScalarOfEncodeScalar | nxp_simtemp.h:5-7 | a field value stored as little-endian two's complement reads back unchanged |
| PackedLayout.EncodeScalarOfDecodeScalar | nxp_simtemp.h:5-7 | every field-wide byte string is the stored form of the value it decodes to |
| PackedLayout.UnpackOfPack | nxp_simtemp.h:4-8 | unpacking a packed struct returns the values packed into it |
| PackedLayout.PackOfUnpack | nxp_simtemp.h:4-8 | packing the values a struct-sized byte string holds rebuilds those bytes |
| PackedLayout.FieldInside | nxp_simtemp.h:4-8 | every field's byte run, starting at its offset, lies inside the struct |
| PackedLayout.PackFieldAt | nxp_simtemp.h:4-8 | the bytes at field i's offset are exactly field i's encoding (no padding, no overlap) |
| PackedLayout.UnpackFieldAt | nxp_simtemp.h:4-8 | field i is decoded from exactly the bytes at its offset and no others |
| SimtempSample.FlagWord | nxp_simtemp.h:7 | the flag word has bit 0 set iff NEW_SAMPLE and bit 1 set iff THRESHOLD_CROSSED, and no other bit |
| SimtempSample.Fields | nxp_simtemp.h:5-7 | the timestamp, temperature and flags fit u64, s32 and u32 fields |
| SimtempSample.SampleLayoutIsPacked | nxp_simtemp.h:4-8 | the struct is 16 bytes with fields at offsets 0, 8 and 12 |
| SimtempSample.Encode | nxp_simtemp.h:4-8 | the memory image of a sample is 16 bytes long |
| SimtempSample.DecodeOfEncode | nxp_simtemp.h:4-8 | decoding a sample's image gives the sample back |
| SimtempSample.Decode | nxp_simtemp.h:4-8 | the sample decoded from any 16-byte string is the one whose image that string is |
| SimtempSample.FieldsOfDecode | cli/simtemp_cli.py:53 | the fields of a decoded record are the values that unpacking the record with the header's layout gives |
| SimtempSample.EncodeFieldOffsets | nxp_simtemp.h:5-7 | the image holds the timestamp little-endian in bytes 0..8, the temperature in two's complement in bytes 8..12 and the flags in bytes 12..16 |
| SimtempSample.DecodeFieldOffsets | nxp_simtemp.h:5-7 | decoding reads each field from its own byte range only |
| SimtempSample.KernelHeaderAgrees | kernel/nxp_simtemp.h:4-8 | the kernel header's struct has the same size and packing as the top-level one, so images written with one decode unchanged with the other |
| CharRead.ReadAt | nxp_simtemp.c:20-37 | on one read: 0 is returned iff the position is at or past the end (EOF: no bytes, position unchanged) or the count is 0. Before the end, -EFAULT is returned iff copy_to_user fails (at least one byte to copy and the buffer cannot be written), with nothing delivered and the position unchanged. Otherwise exactly min(count, bytes left) is returned, the delivered bytes are the record's bytes at the position, and the position advances by that many |
| CharRead.ReadAtEnd | nxp_simtemp.c:22-23 | at or past the end a read returns 0 and leaves the position alone, whatever the count or copy outcome |
| CharRead.ReadAtBeforeEnd | hello.c:24-28 | before the end a zero-byte read returns 0 and moves nothing, whatever the buffer; a read of one byte or more into a buffer that cannot be written returns -EFAULT without moving |
| CharRead.Drain | nxp_simtemp.c:33-37 | a run of reads never moves the position backwards, and it delivers exactly as many bytes as the position moved |
| CharRead.DrainPosition | nxp_simtemp.c:29-37 | a run of reads ends at min(record length, start + the counts requested into writable buffers) |
| CharRead.DrainAgrees | nxp_simtemp.c:33-36 | where every call's record agrees with a reference record, the concatenated reads deliver the reference's bytes at the matching positions |
| CharRead.DrainSameRecord | hello.c:20-31 | reading the same record on every call from position 0 delivers its first min(length, requested) bytes, in order, each once |
| CharRead.DrainAgreeingRecords | hello.c:20-31 | reading records that all agree with one record from position 0 delivers that record's first min(length, requested) bytes |
| CharRead.DrainWholeRecord | hello.c:20-31 | once the requests cover the record, those reads deliver the whole record exactly once and stop at its end |
| HelloDriver.MessageLength | hello.c:18 | the served length is 22, the stored array minus its trailing NUL |
| HelloDriver.HelloMessage | hello.c:13 | the served bytes are the 22 characters of "Hello from /dev/hello\n", ending in a newline, with no NUL |
| HelloDriver.HelloFile.Read | hello.c:15-32 | the read handler's return value, delivered bytes and new position are ReadAt over the message; spelled out: EOF at or past 22; -EFAULT for a non-zero count into a buffer that cannot be written; otherwise the clamped window, including 0 bytes for a count of 0 |
| HelloDriver.ReadsConcatenateToMessage | hello.c:20-31 | any run of reads from 0 that requests at least 22 bytes in total, with copy failures anywhere, yields exactly the message and ends at EOF |
| HelloDriver.ReadsDeliverPrefix | hello.c:24-31 | reads that request fewer bytes deliver exactly that prefix of the message |
| SimtempDriver.BuildSample | nxp_simtemp.c:25-27 | the sample built has the clock's timestamp, 42123 m°C, NEW_SAMPLE set and THRESHOLD_CROSSED clear |
| SimtempDriver.RecordAt | nxp_simtemp.c:19-27 | the image a read copies from is 16 bytes and decodes to the built sample |
| SimtempDriver.SimtempFile.Read | nxp_simtemp.c:16-38 | the read handler's return value, delivered bytes and new position are ReadAt over the fresh record; spelled out: EOF at or past 16; -EFAULT for a non-zero count into a buffer that cannot be written; otherwise the clamped window of the record at the position, including 0 bytes for a count of 0 |
| SimtempDriver.FullReadThenEof | nxp_simtemp.c:22-37 | a read of at least 16 bytes at position 0 returns 16 and the whole record, which decodes to (t, 42123, 1), and the next read is EOF |
| SimtempDriver.RecordsAgreeAfterTimestamp | nxp_simtemp.c:25-27 | records built at different times differ at most in the timestamp bytes 0..8 |
| SimtempDriver.PartialReadsKeepTemperatureAndFlags | nxp_simtemp.c:29-37 | partial reads from 0 that together cover 16 bytes assemble a 16-byte record whose temperature and flags are the placeholder ones, although each call stamps its own time |
| SimtempDriver.PartialReadsSameStamp | nxp_simtemp.c:29-37 | if every call sees the same clock value, partial reads assemble exactly that sample's record |
| SimtempCli.CodeScalar | cli/simtemp_cli.py:5 | each integer format character names a field of standard size 1, 2, 4 or 8 bytes |
| SimtempCli.ParseCodes | cli/simtemp_cli.py:5 | the codes after the prefix parse to a layout of standard-size fields, with no more fields than characters |
| SimtempCli.CompileFormat | cli/simtemp_cli.py:5 | the model's CompileFormat compiles fmt only when it starts with '=' or '<', and then to standard-size fields, fewer than the characters of fmt |
| SimtempCli.ScalarCode | cli/simtemp_cli.py:5 | each field type with a standard size has a format character that names that type |
| SimtempCli.ParseCodesOfCodes | cli/simtemp_cli.py:5 | a format string written out from a layout parses back to that layout |
| SimtempCli.CompileFormatOfCodes | cli/simtemp_cli.py:5 | '=' or '<' followed by the codes of a standard-size layout compiles to that layout |
| SimtempCli.RecFormatIsSampleLayout | cli/simtemp_cli.py:5 | `"=Q i I"` describes the header's layout, and REC.size is 16 |
| SimtempCli.StructUnpack | cli/simtemp_cli.py:53 | unpack succeeds iff the data is exactly the struct's size, and then returns in-range values that pack back to the data |
| SimtempCli.Alert | cli/simtemp_cli.py:54 | alert is 1 iff THRESHOLD_CROSSED is set in the flags, else 0 |
| SimtempCli.FlagConstantsMatchHeader | cli/simtemp_cli.py:6-7 | FLAG_NEW and FLAG_THRESH are the masks of the header's bits 0 and 1 |
| SimtempCli.ReadBranch | cli/simtemp_cli.py:50-54 | a read of any length other than 16 is a short read; a 16-byte one reports the decoded timestamp and temperature and the alert bit |
| SimtempCli.ReadBranchOfRecord | cli/simtemp_cli.py:50-54 | the CLI reports every field of any record the driver writes, so the two sides agree on the layout |
| SimtempCli.CliAgainstSkeletonDriver | cli/simtemp_cli.py:50-54 | against the skeleton driver the CLI reports (t, 42123, no alert), and the empty EOF read counts as a short read |
| SimtempTestHelpers.SysfsPath | tests/simtemp_gtest.cpp:37-39 | the path is the sysfs base, a '/', then the attribute name |
| SimtempTestHelpers.SysfsPathInjective | tests/simtemp_gtest.cpp:37-39 | different attributes map to different paths |
| SimtempTestHelpers.TrimLineEnds | tests/simtemp_gtest.cpp:53-55 | the result is a prefix of the text that does not end in '\n' or '\r', and only line ends follow it |
| SimtempTestHelpers.TrimLineEndsUnique | tests/simtemp_gtest.cpp:53-55 | that prefix is the only one with these properties |
| SimtempTestHelpers.TrimLineEndsIdempotent | tests/simtemp_gtest.cpp:53-55 | trimming twice is trimming once |
| SimtempTestHelpers.ReadFile | tests/simtemp_gtest.cpp:46-57 | it throws runtime_error "Failed to open <path> for reading" on an unopenable file, else returns the contents with the trailing line ends removed |
| SimtempTestHelpers.ReadAttr | tests/simtemp_gtest.cpp:86-88 | it is ReadFile of the attribute's sysfs path |
| SimtempTestHelpers.ReadAttrInt | tests/simtemp_gtest.cpp:90-92 | it is the open error, or std::stoi of the trimmed attribute text |
| SimtempTestHelpers.Payload | tests/simtemp_gtest.cpp:67-70 | the payload is empty for an empty value, otherwise ends in exactly one added or existing newline, and starts with the value |
| SimtempTestHelpers.PayloadIdempotent | tests/simtemp_gtest.cpp:67-70 | a payload is its own payload |
| SimtempTestHelpers.WriteAttr | tests/simtemp_gtest.cpp:59-84 | it opens the attribute's path and returns -errno if open fails, with nothing written; otherwise it writes the payload and returns -errno on a failed write, -EIO on a short write, and 0 iff the whole payload was written |
| SimtempTestHelpers.ParseInteger | tests/simtemp_gtest.cpp:103 | std::stoll and std::stoi either return a value inside the type's range or fail with invalid_argument or out_of_range |
| SimtempTestHelpers.Scan | tests/simtemp_gtest.cpp:103 | the scanned run of a number's text consists of digits only |
| SimtempTestHelpers.Stoll | tests/simtemp_gtest.cpp:103 | std::stoll returns a long long or throws invalid_argument or out_of_range |
| SimtempTestHelpers.Stoi | tests/simtemp_gtest.cpp:91 | std::stoi returns an int or throws invalid_argument or out_of_range |
| SimtempTestHelpers.ParseIntegerOfDecimalText | tests/simtemp_gtest.cpp:103 | a number printed in decimal, followed by anything not starting with a digit, parses back to that number |
| SimtempTestHelpers.StollOfDecimalText | tests/simtemp_gtest.cpp:103 | std::stoll reads back any long long printed with "%lld" |
| SimtempTestHelpers.FindFirst | tests/simtemp_gtest.cpp:100 | find returns the index of the first occurrence of the character, or npos (None) iff it does not occur |
| SimtempTestHelpers.FindFirstAt | tests/simtemp_gtest.cpp:100 | an occurrence with no earlier one is what find returns |
| SimtempTestHelpers.LinesOfLineThen | tests/simtemp_gtest.cpp:99 | getline reads the text up to the first '\n' as the first line and resumes after that '\n' (this and LinesOfOneLine define Lines) |
| SimtempTestHelpers.LinesOfOneLine | tests/simtemp_gtest.cpp:99 | a non-empty text with no '\n' is read as exactly one line |
| SimtempTestHelpers.LinesHaveNoNewline | tests/simtemp_gtest.cpp:99 | no line std::getline extracts contains '\n' |
| SimtempTestHelpers.JoinLinesOfLines | tests/simtemp_gtest.cpp:99 | the extracted lines, each followed by '\n', rebuild the text, with a final '\n' added if it was missing |
| SimtempTestHelpers.LinesOfJoinLines | tests/simtemp_gtest.cpp:99 | lines without '\n', joined with terminators, are extracted back unchanged |
| SimtempTestHelpers.CounterKeysArePlain | tests/simtemp_gtest.cpp:104-105 | the two counter keys are distinct and contain neither '=' nor '\n' |
| SimtempTestHelpers.ParseLine | tests/simtemp_gtest.cpp:100-103 | a line is skipped iff it has no '='; otherwise its key is the text before the first '=' and its value is std::stoll of the text after it |
| SimtempTestHelpers.FirstFailure | tests/simtemp_gtest.cpp:103 | the error a line's value can raise is invalid_argument or out_of_range |
| SimtempTestHelpers.StatsOf | tests/simtemp_gtest.cpp:94-108 | once the text has been read, ReadStats can fail only with an exception of std::stoll (the declarative reading it is proved equal to) |
| SimtempTestHelpers.UpdateSetsNamedCounter | tests/simtemp_gtest.cpp:104-105 | a `key=value` line sets total_samples or threshold_crossings when its key is that counter's name, leaving the other counter unchanged, and changes nothing for any other key |
| SimtempTestHelpers.StatsOfNoLines | tests/simtemp_gtest.cpp:32-35 | with no lines both counters are 0 |
| SimtempTestHelpers.LineWithoutEqualsIsSkipped | tests/simtemp_gtest.cpp:101 | a line without '=' changes nothing |
| SimtempTestHelpers.LaterLineWins | tests/simtemp_gtest.cpp:102-105 | a further well-formed `key=value` line sets the counter its key names (the last such line wins) and leaves everything unchanged for any other key |
| SimtempTestHelpers.BadValueFails | tests/simtemp_gtest.cpp:103 | a line whose value does not parse makes the whole read fail, whatever its key |
| SimtempTestHelpers.AbsentCounterIsZero | tests/simtemp_gtest.cpp:32-35 | a counter that no line names stays 0 |
| SimtempTestHelpers.FirstFailureOfPrefix | tests/simtemp_gtest.cpp:99-103 | once some line fails to parse, later lines cannot change the error that is thrown |
| SimtempTestHelpers.ReadStats | tests/simtemp_gtest.cpp:94-108 | the result is the open error, or the declarative reading of the trimmed text's getline lines: the first line whose value fails to parse gives the error, otherwise each counter is the value of the last line with its key, 0 if there is none |
| SimtempTestHelpers.ReadAttrIntOfPrinted | tests/simtemp_gtest.cpp:90-92 | an int attribute printed as "%d\n" reads back as that int |
| SimtempTestHelpers.ReadStatsOfTwoFields | tests/simtemp_gtest.cpp:94-108 | a text of two well-formed `key=value` lines reads back as both updates applied, in order, to zero counters |
| SimtempTestHelpers.ReadStatsOfPrinted | tests/simtemp_gtest.cpp:94-108 | the text "total_samples=a\nthreshold_crossings=b\n" reads back as the counters (a, b) |

## Left out

- The module plumbing of both drivers is not modelled: the file operations tables, the
  miscdevice registration, and init and exit (nxp_simtemp.c:40-71, hello.c:34-65). These
  only register handlers with the kernel.
- The sampling engine the sources describe is not modelled. It would cover the ring
  buffer, timer, poll, sysfs attributes and blocking reads. Its code is not part of this
  model; the skeleton read handler is what the driver file holds.
- The file position and the count are `nat`s. The widths of `loff_t`, `size_t` and
  `ssize_t` are not modelled. A caller can pass any position, for example with pread, but
  the handlers' arithmetic cannot overflow. `len - *ppos` is computed only when
  `*ppos < len`, the clamped count is at most `len - *ppos`, and so the new position
  `*ppos + count` is at most `len` (nxp_simtemp.c:22-36, hello.c:21-30). The returned
  count is at most 22, so it fits `ssize_t`.
- `copy_to_user` is a yes/no outcome. The model looks only at whether the caller's buffer
  can be written. A zero-byte copy always succeeds. When a copy fails, the model delivers
  no bytes. The real
  call may copy some bytes before it faults, but the handler returns -EFAULT either way and
  does not move the position, which is what the model captures.
- The CLI's `argparse` options, `write_attr`, `poll` loop, printing, temperature in
  degrees and test mode (cli/simtemp_cli.py:10-47, 55-71) are not modelled. They are I/O
  and floating point. Only the decoding branch is modelled.
- SimtempCli.CompileFormat accepts only the byte-order prefixes `=` and `<`, the
  integer codes, and whitespace. Native alignment (`@` or no prefix), `>`/`!`, repeat
  counts and the other codes are not needed for `"=Q i I"`, so they are left out.
- `=` is taken to mean little-endian: the model fixes the byte order of the target.
- std::stoll and std::stoi are modelled for base 10 in the C locale. Scanning hexadecimal
  or octal, and the `"0x"` forms of other bases, are not modelled because the helpers use
  the default base.
- The gtest fixtures and test bodies (tests/simtemp_gtest.cpp:110-320) are not modelled.
  They run the device under timing and poll conditions. `PathExists` and `WaitForSample`
  are not modelled either, because they depend on the file system and on timing.
- gui/main.cpp is not part of this model.
- The gtest file declares its own packed `SimtempSample` (tests/simtemp_gtest.cpp:24-30),
  with the same three fields. Only the device tests use it, so it is not modelled
  separately from the header's layout.
