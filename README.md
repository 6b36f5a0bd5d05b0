# JPI EDM header decoder, modelled in Dafny

A JPI EDM engine-monitor download starts with an ASCII header. The header is a
run of lines of the form `$<tag>,<field>,...*<two hex digits>`, where the hex
digits are the XOR of the bytes between `$` and `*`. Binary flight data follows
the header. The header ends at the first LF whose next byte is not `$`.

The decoder (`EdmHeader` in `src/main.rs`) works in three steps:

- `parse` finds that boundary, insists on UTF-8, and runs `checksum` over every
  line. A line that cannot be checked panics. A checksum that does not match is
  computed and thrown away.
- `data` walks the header lines and dispatches on the second character:
  - `U` lines go through `process_header_rego`, which sets the registration
    (tail number).
  - `A` lines go through `process_header_alarms`, which sets eight alarm
    thresholds.
  - Every other tag is ignored.
- The last line with a given tag wins.

Points of the code's behaviour that the model keeps:

- a mismatched checksum is computed and then dropped, so the line is still accepted;
- only a checksum that cannot be computed (no `*`, an empty payload, bad hex digits) stops parsing;
- the alarm fields are filled in the code's order: `max_volts`, `min_volts`,
  `max_egt_spread`, `max_cht`, `max_cht_cool_rate`, `max_egt`, `max_oil_temp`,
  `min_oil_temp`.

Modules, one file each:

- `outcomes.dfy` (`Outcomes`): `Option`, `Result` and `FormatError`, with one
  error per `expect` in the source. A panic becomes an `Err` carrying that
  error.
- `text.dfy` (`Text`): the standard string operations the decoder relies on,
  on bytes:
  - `split_once`;
  - `split`, with its inverse `Join`;
  - `trim`;
  - `str::lines`.
- `numbers.dfy` (`Numbers`): the number parsers:
  - `u8::from_str_radix(_, 16)`;
  - `str::parse::<i32>`;
  - `str::parse::<f64>`, as an exact decimal;
  - the rendering they are checked against.
- `records.dfy` (`Records`): the decoded records.
- `header.dfy` (`EdmHeader`):
  - the header boundary, `checksum` and `parse`;
  - `process_header_clean`;
  - `process_header_rego`;
  - `process_header_alarms`.
- `aggregate.dfy` (`Aggregator`):
  - `data`, as a method with a loop;
  - the fold `ApplyLines` that specifies it;
  - the last-write-wins and error-propagation properties.
- `scenarios.dfy` (`Scenarios`): concrete header lines and whole files, decoded
  symbolically, from general lemmas about rendered numbers and registration
  lines.

## Model

| member | source | states |
|---|---|---|
| Text.IndexOf | src/main.rs:103-104 | the first index of a byte; `None` exactly when the byte is absent |
| Text.SplitOnce | src/main.rs:103-104 | `split_once`: either no delimiter, or parts around the first delimiter, the first part free of it |
| Text.SplitOnceAt | src/main.rs:134-136 | splitting `a d b` with `d` not in `a` gives exactly `(a, b)` |
| Text.Split | src/main.rs:137 | `split` yields at least one segment, none holding the delimiter, and joining them gives back the input |
| Text.SplitJoin | src/main.rs:137 | `split` inverts `Join` for delimiter-free parts |
| Text.SplitCount | src/main.rs:137 | `split` yields one more segment than there are delimiters |
| Text.CountConcat | src/main.rs:137 | delimiter counts add over concatenation |
| Text.Trim | src/main.rs:141 | `trim`: the result has no edge whitespace, never grows, leaves an already-trimmed string alone, and is empty only for all-whitespace input |
| Text.TrimIsSlice | src/main.rs:141 | the trimmed string is a slice of the input with only whitespace cut away on either side |
| Text.TrimIdempotent | src/main.rs:141 | trimming twice is trimming once |
| Text.Lines | src/main.rs:125-126 | `str::lines`: no line holds an LF; no lines exactly for empty text |
| Text.StripCR | src/main.rs:125-126 | a line ending in CR loses exactly that CR; any other line is unchanged |
| Text.LinesOfJoin | src/main.rs:125-126 | `lines` inverts joining LF-free lines with LF, when no line but the last ends in CR |
| Text.LinesCons | src/main.rs:125-126 | `lines` of `line LF rest` is the CR-stripped line followed by the lines of `rest` |
| Text.LaterLinesStartWithDollar | src/main.rs:112-118 | when every LF is followed by `$`, every line after the first starts with `$` |
| Text.JoinLinesDollarAfterLF | src/main.rs:112-118 | joining `$`-led LF-free lines puts `$` after every LF |
| Numbers.DigitValue | src/main.rs:106 | a byte is a digit of radix 10 or 16 exactly when it is `0-9` (or `A-F`, `a-f` in hex), with value below the radix |
| Numbers.DigitsValue | src/main.rs:106 | a digit string has a value exactly when every byte is a digit |
| Numbers.DigitsValueConcat | src/main.rs:106 | positional value of a concatenation: `v(a) * radix^len(b) + v(b)` |
| Numbers.FromStrRadix | src/main.rs:106 | `from_str_radix`: any result lies in the target range; empty input and a bare sign are rejected |
| Numbers.FromStrRadixOfDigits | src/main.rs:106 | an unsigned digit string in range parses to its positional value |
| Numbers.SignedDigits | src/main.rs:179 | a signed digit string parses to the signed value exactly when that value is in range |
| Numbers.SignSplit | src/main.rs:106 | the sign step of `from_str_radix`, shared with `parse::<i32>` at src/main.rs:179: the result is negative exactly for a signed type and a leading `-`; a leading `+` is always skipped, a `-` only for a signed type |
| Numbers.ParseHexU8 | src/main.rs:106 | `u8::from_str_radix(_, 16)`: success needs hex digits after an optional `+`, and never a `-` |
| Numbers.ParseHex2 | src/main.rs:106 | two hex digits written for a byte parse back to that byte |
| Numbers.ParseHexOverflow | src/main.rs:106 | hex digits worth more than 255 are rejected |
| Numbers.ParseI32 | src/main.rs:179 | `parse::<i32>`: any result lies in the i32 range and comes from an optionally signed digit string |
| Numbers.ParseI32Render | src/main.rs:179 | a decimal rendering of `n` parses back to `n` (also with `+`, negated with `-`) when in range, and is rejected above `i32::MAX` |
| Numbers.ParseF64 | src/main.rs:165 | `parse::<f64>` as an exact decimal: the scale is below the length and is zero without a `.` |
| Numbers.ParseF64OfInteger | src/main.rs:165 | an i32 token parses as a float to the same integer |
| Numbers.ParseF64Fraction | src/main.rs:165 | `w.f` parses to mantissa `w * 10^len(f) + f` at scale `len(f)` |
| Numbers.Tenth | src/main.rs:167 | the value after `/ 10.0` is exactly a tenth of the value before |
| Numbers.RenderValue | src/main.rs:179 | the decimal rendering of `n` has value `n` |
| Numbers.Hex2Value | src/main.rs:106 | the two hex digits written for a byte have the byte's value |
| EdmHeader.IsTerminator | src/main.rs:116 | reference definition of the `find` predicate: the byte is an LF and the next byte is not `$` |
| EdmHeader.FindTerminator | src/main.rs:112-118 | the first index from `from` with an LF followed by a byte other than `$`; `None` means there is none |
| EdmHeader.HeaderEnd | src/main.rs:112-118 | the least terminator index; `None` exactly when the stream holds none |
| EdmHeader.HeaderShape | src/main.rs:112-118 | the header does not end in LF, and every LF inside it is followed by `$` |
| EdmHeader.NoTerminatorAtEnd | src/main.rs:112-118 | an empty stream has no header, and neither has one whose only LF is its last byte |
| EdmHeader.AllHeaderLinesNoTerminator | src/main.rs:112-118 | a stream made only of LF-terminated lines that each start with `$` has no header, for any number of lines |
| EdmHeader.HeaderEndAfterLines | src/main.rs:112-118 | for `$`-led lines joined with LF and followed by LF and a non-`$` byte, the header is exactly the joined lines |
| EdmHeader.NoTerminatorInLines | src/main.rs:112-118 | no index inside such joined lines ends the header, whatever follows |
| EdmHeader.XorFold | src/main.rs:107 | reference definition of `.fold(0, \|i, x\| i ^ *x)`: the XOR of all bytes, folded from the left starting at 0 |
| EdmHeader.XorFoldAppend | src/main.rs:107 | the XOR fold of a concatenation is the XOR of the folds |
| EdmHeader.XorFoldReplace | src/main.rs:107 | replacing one byte changes the fold by the XOR of the old and new byte |
| EdmHeader.XorFoldChanged | src/main.rs:107 | any single-byte change changes the fold |
| EdmHeader.Checksum | src/main.rs:102-109 | `checksum`: a missing `*` fails exactly when there is no `*`; only the three checksum errors can occur; success needs at least `x*d` |
| EdmHeader.ChecksumMeaning | src/main.rs:102-109 | with `k` the first `*`: unparseable hex fails; an empty payload fails; otherwise the result is whether the XOR of `line[1..k]` equals the hex value |
| EdmHeader.ChecksumOfParts | src/main.rs:102-109 | the same, for a line given as payload, `*` and suffix, in the order the source can fail |
| EdmHeader.SealedLineChecks | src/main.rs:102-109 | a line sealed with the XOR of its payload checks `true` |
| EdmHeader.SealedLineCheckable | src/main.rs:102-109 | a `$payload*hh` line checks `Ok`, and the result is `true` exactly when `hh` is the XOR of the payload |
| EdmHeader.SealedLineParses | src/main.rs:110-131 | a sealed single header line followed by the binary section parses to exactly that line, whatever its checksum |
| EdmHeader.WrongChecksumFails | src/main.rs:102-109 | a line sealed with any other byte checks `false` |
| EdmHeader.ChecksumSensitive | src/main.rs:102-109 | changing any one payload byte after the first of a line that checked true makes it check false |
| EdmHeader.TrailingCRRejected | src/main.rs:106 | checksum digits followed by CR are not a hex number |
| EdmHeader.CollectChecks | src/main.rs:124-128 | collecting the checks succeeds exactly when every line's check does, keeping the values; otherwise it fails with the first failing line's error |
| EdmHeader.CheckLines | src/main.rs:125-127 | one checksum result per header line, in order |
| EdmHeader.IsAscii | src/main.rs:121-122 | reference definition of the text check standing in for `from_utf8`: every byte is below 0x80 |
| EdmHeader.Parse | src/main.rs:110-131 | the header is the stream up to the first terminator; `NoHeaderTerminator` exactly when there is none |
| EdmHeader.ParseIgnoresChecksumResults | src/main.rs:110-131 | parsing succeeds exactly when the terminator exists, the header is ASCII, and every line's checksum can be computed; match or mismatch plays no part |
| EdmHeader.ChecksPassIff | src/main.rs:124-128 | the checksum pass succeeds exactly when every line's checksum can be computed |
| EdmHeader.ParsedLinesWellFormed | src/main.rs:110-131 | every line of a parsed header holds a `*` and at least three bytes |
| EdmHeader.ParsedLaterLinesStartWithDollar | src/main.rs:110-131 | every line after the first of a parsed header starts with `$` |
| EdmHeader.ParseOfLines | src/main.rs:110-131 | a file of checkable `$` lines followed by LF and a non-`$` byte parses to exactly those lines |
| EdmHeader.MismatchedLineParses | src/main.rs:124-130 | a header line whose checksum does not match is still accepted |
| EdmHeader.ParseOfFailingLine | src/main.rs:124-128 | a one-line header whose checksum cannot be computed fails with that line's error |
| EdmHeader.CrlfHeaderRejected | src/main.rs:110-131 | a one-line header ending in CR LF keeps its CR, so parsing fails on its checksum digits |
| EdmHeader.TrimAll | src/main.rs:139-145 | one trimmed token per segment, in order |
| EdmHeader.Clean | src/main.rs:133-147 | `process_header_clean`: fails exactly when there is no `*`; otherwise one token per comma before the `*` |
| EdmHeader.CleanOfParts | src/main.rs:133-147 | a line `head ,s1 ,s2 ... * suffix` cleans to the trimmed `s1, s2, ...` |
| EdmHeader.Registration | src/main.rs:149-156 | `process_header_rego`: fails exactly when there is no `*`; a registration exactly when there is one token, and then it is that token |
| EdmHeader.RegistrationOfLine | src/main.rs:149-156 | `tag ,reg * suffix` registers the trimmed `reg` |
| EdmHeader.ReadSlot | src/main.rs:162-211 | a float slot yields a scaled reading and an integer slot a whole one |
| EdmHeader.ReadSlots | src/main.rs:160-211 | the chain of `next()?` and parses: an error exactly when a token within reach fails; `None` exactly when the tokens run out first; else one reading per slot, each that token's parse |
| EdmHeader.AlarmsFromTokens | src/main.rs:158-214 | an error exactly when one of the first eight tokens fails its parse; `None` exactly when fewer than eight; else each field is its token's parse in source order, volts divided by ten |
| EdmHeader.AlarmsIgnoreExtraTokens | src/main.rs:158-214 | tokens after the eighth are never read |
| EdmHeader.DecodeAlarms | src/main.rs:158-159 | `process_header_alarms`: a missing `*` fails; otherwise the alarms come from the cleaned tokens |
| Aggregator.Tagged | src/main.rs:222 | reference definition of `chars().nth(1)` being the tag: the line has a second byte and it is the tag |
| Aggregator.LineFailure | src/main.rs:221-230 | a line fails exactly when: it has fewer than two bytes (`EmptyTagLine`); it is a `U` line without `*`; or it is an `A` line whose alarm decoding fails, with that error. A line with any other tag never fails |
| Aggregator.ApplyLine | src/main.rs:221-230 | one dispatch step: fails exactly when the line fails; a `U` line sets the registration, an `A` line sets the alarms; every other field is unchanged |
| Aggregator.ApplyLines | src/main.rs:221-231 | the loop over lines, as a fold: a successful pass leaves the four undecoded fields unset |
| Aggregator.ApplyLinesOutcome | src/main.rs:221-231 | the fold succeeds exactly when no line fails; otherwise it fails with the error of the first failing line |
| Records.EMPTY_HEADER | src/main.rs:218-220 | reference definition of `HeaderData { ..Default::default() }`: every field unset |
| Aggregator.Decode | src/main.rs:216-233 | `data` as a function: parse errors propagate; every result leaves fuel, download time, protocol version and features unset |
| Aggregator.Data | src/main.rs:216-233 | the loop, with the header record updated in place, computes `Decode` |
| Aggregator.LastTagged | src/main.rs:221-230 | the index of the last line with a tag, and no later line has it; `None` when none has it |
| Aggregator.LastWriteWins | src/main.rs:221-230 | after a successful pass, the registration is what the last `U` line decodes to and the alarms are what the last `A` line decodes to; with no such line each keeps its start value |
| Aggregator.LastRegistrationWins | src/main.rs:223-225 | the registration half of the last-write-wins property |
| Aggregator.LastAlarmsWin | src/main.rs:226-228 | the alarms half of the last-write-wins property |
| Aggregator.ApplyLinesAppend | src/main.rs:221-231 | processing `a + b` is processing `a` and then `b` from its result, stopping at the first error |
| Aggregator.SwapRegistrationAndAlarms | src/main.rs:221-230 | a valid `U` line and a valid `A` line may be processed in either order with the same result |
| Aggregator.UnknownTagsIgnored | src/main.rs:229 | lines with any other tag leave the record unchanged |
| Aggregator.FailureOfTokenizableLines | src/main.rs:221-230 | when every line has a `*` and a tag, the only failure is a bad alarm token on an `A` line |
| Aggregator.DispatchAfterParse | src/main.rs:216-233 | after a successful parse, `data` can fail only on a bad alarm token, and some `A` line holds it |
| Aggregator.DecodeOfParsed | src/main.rs:216-221 | after a successful parse, `data` processes exactly the parsed header's lines |
| Scenarios.AlarmsOfNumbers | src/main.rs:158-214 | eight or more in-range rendered numbers give the alarms of the first eight, volts at scale one |
| Scenarios.TruncatedAlarmsUnset | src/main.rs:163-164 | fewer than eight rendered numbers give no alarm record and no error |
| Scenarios.CleanAlarmLine | src/main.rs:133-147 | an alarm line of rendered numbers cleans to those renderings |
| Scenarios.AlarmLineDecodes | src/main.rs:158-214 | an alarm line of eight in-range numbers decodes, whatever its checksum text |
| Scenarios.TruncatedAlarmLineDecodes | src/main.rs:158-214 | an alarm line of fewer than eight numbers decodes to no record |
| Scenarios.AlarmLineScenario | src/main.rs:158-214 | `$A,135,115,35,420,15,1650,50,240*..` gives 13.5 V, 11.5 V, 35, 420, 15, 1650, 50, 240 |
| Scenarios.TruncatedAlarmLineScenario | src/main.rs:163-164 | `$A,135,115,35,420,15*..` gives no alarm record |
| Scenarios.RegistrationFileDecodes | src/main.rs:216-233 | a file with one `$U,<reg>*<hex>` line, followed by LF and a non-`$` byte, decodes to that registration alone, whatever the checksum byte |
| Scenarios.RegistrationLineParses | src/main.rs:110-131 | such a file parses to exactly its one line |
| Scenarios.ApplyRegistrationLine | src/main.rs:221-225 | processing that one line sets only the registration |
| Scenarios.TailNumberChecksum | src/main.rs:107 | the XOR of `U,N354DT` is 0x15 |
| Scenarios.RegistrationLineChecks | src/main.rs:102-109 | `$U,N354DT*15` checks `true` and `$U,N354DT*16` checks `false` |
| Scenarios.RegistrationScenario | src/main.rs:216-233 | `$U,N354DT*15`, LF, 0x00 decodes to registration `N354DT` |
| Scenarios.WrongChecksumScenario | src/main.rs:216-233 | with checksum `16` the line checks `false` and the file still decodes to `N354DT` |

## Left out

- Reading the file: `new`, `read_file`, the file name and `main` with its `dbg!` output (src/main.rs:81-96, 236-241). `Decode` and `Data` take the file's bytes as a parameter.
- `len` and the `parsed` and `data` fields of `EdmHeader` (src/main.rs:73-78, 98-100). `new` only initialises `parsed` and `data`, and nothing reads them; `len` is a plain length.
- Panics: each `expect` is modelled as an `Err` carrying one `FormatError`, so the model returns where the program would abort.
- Records.Alarms: the `Option` around each field is dropped. The decoder fills all eight fields or none, so a present record always has every field.
- Fuel, download time, protocol version and features are never decoded by the source. The model carries them as records and proves they stay unset.
- EdmHeader.Parse: the UTF-8 check is modelled as an ASCII check. A header containing valid non-ASCII UTF-8 is rejected here but accepted by the source. The header format is ASCII.
- Numbers.ParseF64: floats are exact decimals (mantissa and scale). Exponents, `inf`, `nan` and binary rounding are not modelled. Because of this, `/ 10.0` is exact (`Numbers.Tenth`) where the source rounds.
- Numbers.ParseI32: the i32 range is modelled by explicit bounds. The source cannot see values beyond them, because they fail to parse.
- Text.Lines: follows the current `str::lines` behaviour. A final CR without a following LF is kept. This is why a CRLF-terminated header is rejected (`EdmHeader.CrlfHeaderRejected`).
- Text.Trim: whitespace is ASCII whitespace only. Unicode whitespace is out of scope, because the header is ASCII.
- The registration scenario uses checksum byte 0x15. That is the XOR of `U,N354DT`, proved in `Scenarios.TailNumberChecksum`. The model still shows that the line decodes with any checksum byte.
- Idempotence of `data`: it reads only its input bytes, so calling it twice gives the same result by construction. A separate lemma would state nothing.
