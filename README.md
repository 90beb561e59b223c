# utf8conditioner in Dafny

utf8conditioner is a filter that reads a byte stream from standard input and
writes a conditioned copy to standard output. It decodes UTF-8 one character
at a time. It checks each character against the options and repairs what
fails. Each failure is reported on standard error.

Each iteration of the main loop makes one decode attempt:

- The lead byte is classified by its high bits. It announces 0 to 5
  continuation bytes, so the 5- and 6-byte forms of RFC 2279 are accepted
  structurally.
- The continuation bytes are read, adding six bits each to the code point.
- A byte that is not `10xxxxxx` is pushed back and un-counted. It then
  starts the next attempt.
- A complete character is checked in this order: overlong form (the
  `highestCharInNBytes` table), Unicode scalar value, XML 1.0 or XML 1.1
  `Char`, and the `-b` deny-list. The first check that fails decides.
- A failed attempt is replaced by the substitute byte: one substitute for the
  whole attempt, or with `-m` one substitute per byte read.
- Under `-X 1.1` a restricted character is written as the reference `&#x`
  followed by its upper-case hexadecimal digits. It is logged but is not
  counted as an error.
- Nothing is written with `-c`. `-q` silences every message. `-e n`
  limits the failure messages to the first n failures, and a closing line
  counts the failures beyond n. With `-e 0` there is no limit. A restricted
  character does not increment the failure count. Its message is printed
  while that count is within the limit, and the closing line does not
  include it. A negative limit (such as `-e -1`, which line 164 turns into
  an `int` of -1) silences every message, and the closing count then
  exceeds the number of failures.

The project has five modules:

- `CodePoints` (`codepoints.dfy`): the four code-point classifiers and how
  they relate to each other.
- `Utf8` (`utf8.dfy`): lead-byte classification, continuation bytes, the
  6-bit accumulation, the overlong table, and an RFC 3629 encoder. The
  encoder is the decoder's partner.
- `CharRef` (`charref.dfy`): the `&#x%X` reference text and its hexadecimal
  round trip.
- `Conditioner` (`conditioner.dfy`): the specification as functions, and the
  loop as imperative methods.
  - The functions are one attempt (`ScanAt`, `Checks`, `Decode`), what it
    writes (`Replacement`), one iteration (`Step`), and the run (`RunFrom`,
    `Conditioned`).
  - The loop is `Condition`, built from `ConditionCharacter`,
    `ReadCharacter`, `ReadContinuations`, `Resolve`, `CheckCode`,
    `Substitute`, `WriteNcr` and `Record`.
  - The loop works on a 10-byte `array` that it overwrites in place, as the
    source does with `byte[10]`.
  - `Condition` is proved to reach exactly the state `Conditioned`
    describes.
- `ConditionerProperties` (`properties.dfy`): properties of the
  specification. They cover pass-through, resynchronisation, repair, the
  shortest-form guarantee, line counting, counter bounds and message
  accounting, plus worked examples.

Standard input is a byte sequence with a read position. `getc` reads at the
position and advances it; EOF is the end of the sequence. `ungetc` of the
byte just read leaves the position in front of that byte. Standard output is
a sequence that the loop appends to. Standard error is a sequence of
`Diagnostic` values, one per message.

The code disagrees with its comments in two places. The model follows the
code:

- `-m` selects one substitute per byte, and the default is a single
  substitute (utf8conditioner.c:302-324). The header comment at lines 23-24
  states it the other way round.
- The reference text written for a restricted character has no closing `;`
  (utf8conditioner.c:328). The note quoted in the comment at lines 412-413
  shows references with one, and production [66] of section 4.1 of XML 1.0
  requires one.

## Model

| member | source | states |
|---|---|---|
| CodePoints.ValidUtf8Char | utf8conditioner.c:369-371 | `validUTF8Char`: at most U+10FFFF and outside U+D800..U+DFFF |
| CodePoints.ValidXml10Char | utf8conditioner.c:391-396 | `validXML1_0Char`: tab, line feed, carriage return, U+0020..U+D7FF, U+E000..U+FFFD, U+10000..U+10FFFF |
| CodePoints.ValidXml11Char | utf8conditioner.c:416-420 | `validXML1_1Char`: U+0001..U+D7FF, U+E000..U+FFFD, U+10000..U+10FFFF |
| CodePoints.RestrictedXml11Char | utf8conditioner.c:422-428 | `restrictedXML1_1Char`: U+0001..U+0008, U+000B..U+000C, U+000E..U+001F, U+007F..U+0084, U+0086..U+00BF |
| CodePoints.ScalarValues | utf8conditioner.c:369-371 | `validUTF8Char(c)` holds exactly when c <= U+10FFFF and c is not a surrogate |
| CodePoints.Xml10WithinXml11 | utf8conditioner.c:391-420 | every XML 1.0 character is an XML 1.1 character |
| CodePoints.XmlCharsAreScalarValues | utf8conditioner.c:369-420 | every XML 1.0 or XML 1.1 character is a Unicode scalar value |
| CodePoints.RestrictedWithinXml11 | utf8conditioner.c:416-428 | every restricted character is an XML 1.1 character |
| CodePoints.Xml11Extension | utf8conditioner.c:391-420 | XML 1.1 adds to XML 1.0 exactly the restricted C0 controls (both directions); NUL is a scalar value but in neither XML set |
| CodePoints.RestrictedAlsoXml10 | utf8conditioner.c:391-428 | the restricted characters XML 1.0 also admits are U+007F..U+00BF without U+0085 (both directions) |
| Utf8.ClassifyLead | utf8conditioner.c:216-242 | the continuation count and carried bits a lead byte announces, or an illegal lead byte |
| Utf8.LeadRange | utf8conditioner.c:216-242 | the illegal lead bytes are exactly 0x80-0xBF, 0xFE and 0xFF; a legal one announces at most 5 continuation bytes and carries fewer values than its form's capacity |
| Utf8.LeadMasks | utf8conditioner.c:216-242 | the classification equals the source's chain of mask tests, and the carried bits equal the masked bits |
| Utf8.IsContinuation | utf8conditioner.c:249 | a byte of the form 10xxxxxx |
| Utf8.Payload | utf8conditioner.c:263 | the low six bits of a byte |
| Utf8.Accumulate | utf8conditioner.c:263 | the value after shifting in the payload of each continuation byte behind the lead's bits |
| Utf8.ContinuationMasks | utf8conditioner.c:249-263 | `(ch&0xC0)!=0x80` rejects exactly the non-continuation bytes, and `ch&0x3F` is the payload |
| Utf8.AccumulateBounds | utf8conditioner.c:263 | after n continuation bytes the value lies in [bits*64^n, (bits+1)*64^n): the lead's bits are its top digits |
| Utf8.HighestCharInNBytes | utf8conditioner.c:97-106 | the `highestCharInNBytes` table: the highest code point of each form length |
| Utf8.HighestCharInNBytesMeaning | utf8conditioner.c:97-106 | each table entry is one less than the number of values an (n+1)-byte form can carry |
| Utf8.DecodedWithinTable | utf8conditioner.c:245-269 | the accumulated value never exceeds the table entry of its form, so it stays below 2^31 and the 32-bit accumulator never wraps |
| Utf8.EncodeLength | utf8conditioner.c:362-367 | the RFC 3629 encoder uses 1, 2, 3 or 4 bytes exactly over the ranges of the RFC's table |
| Utf8.DecodeEncoded | utf8conditioner.c:216-276 | the encoding's lead byte announces exactly the bytes after it, which are continuation bytes that accumulate back to c in shortest form |
| CharRef.HexDigits | utf8conditioner.c:328 | `%X` yields at least one upper-case hex digit, with no leading zero |
| CharRef.HexRoundTrip | utf8conditioner.c:328 | reading the printed digits back gives the number printed |
| CharRef.HexDigitsLength | utf8conditioner.c:328 | a byte value prints as one or two digits |
| CharRef.Ncr | utf8conditioner.c:328 | the reference text is `&#x` followed by the digits and contains no `;` |
| Conditioner.DefaultConfig | utf8conditioner.c:84-93 | the settings with no option: substitute `?`, no XML checks, overlong check on, single substitute, empty deny-list, at most 1000 messages, not quiet, output written |
| Conditioner.ActiveBadChars | utf8conditioner.c:290 | the deny-list the loop sees is the prefix before the first 0, which is the 0 terminator |
| Conditioner.Denied | utf8conditioner.c:290-295 | a code is denied when it is on the deny-list before its 0 terminator |
| Conditioner.ContRun | utf8conditioner.c:245-262 | the number of continuation bytes read never exceeds the announced count or the input |
| Conditioner.ContRunStops | utf8conditioner.c:245-262 | the bytes counted are continuation bytes, and the count stops short only at EOF or before a non-continuation byte |
| Conditioner.ScanAt | utf8conditioner.c:212-269 | an attempt consumes 1 to contBytes+1 bytes within the input, and all of them when it has no structural fault |
| Conditioner.Checks | utf8conditioner.c:271-297 | the first failing check of a complete character: overlong, scalar value, XML 1.0, XML 1.1, deny-list |
| Conditioner.Decode | utf8conditioner.c:211-331 | an attempt consumes 1 to 6 bytes within the input |
| Conditioner.SubstituteEach | utf8conditioner.c:306-310 | the `-m` replacement: each byte above 0x7F becomes the substitute |
| Conditioner.Replacement | utf8conditioner.c:300-346 | what an attempt writes: the bytes read if it passed, the reference text if restricted, one substitute or with -m (two or more bytes) one per byte if it failed |
| Conditioner.Reported | utf8conditioner.c:335 | the message gate: not -q, and the failure count within the limit or no limit |
| Conditioner.Step | utf8conditioner.c:211-347 | one iteration strictly advances the read position and stays within the input |
| Conditioner.Advance | utf8conditioner.c:211-347 | the iteration for a given attempt strictly advances the read position |
| Conditioner.RunFrom | utf8conditioner.c:211-347 | the loop consumes the input to its end |
| Conditioner.Start | utf8conditioner.c:79-85 | the state before the loop: bytenum 0, charnum 0, linenum 1, numErrors 0, nothing written or logged |
| Conditioner.Conditioned | utf8conditioner.c:211-347 | at the end `bytenum` equals the input length |
| Conditioner.Summary | utf8conditioner.c:349-351 | the closing count is printed only without -q, and it is positive |
| Conditioner.ConsumedHighBytes | utf8conditioner.c:302-310 | every byte of an attempt of two or more bytes is above 0x7F |
| Conditioner.DecodeScan | utf8conditioner.c:271-331 | proof step: the checks never change what an attempt consumed or accumulated |
| Conditioner.StepCounters | utf8conditioner.c:211-213 | proof step: the counters after an iteration: bytes consumed, one character, a line for a lead `\n`, one error for a failure |
| Conditioner.RunFromStep | utf8conditioner.c:211 | proof step: the run from a state is the run from the state one iteration later |
| Conditioner.Condition | utf8conditioner.c:211-351 | the loop ends in exactly the state `Conditioned` describes, with `bytenum` equal to the input length and the closing count of `Summary` |
| Conditioner.ConditionCharacter | utf8conditioner.c:211-347 | one iteration of the method produces exactly the state `Step` describes |
| Conditioner.Record | utf8conditioner.c:333-346 | counts a failure, logs it behind the gate of line 335, and writes the first j bytes unless -c |
| Conditioner.NextState | utf8conditioner.c:211-347 | proof step: counters, output and log built as the loop builds them make up `Step`'s state |
| Conditioner.AdvanceFields | utf8conditioner.c:211-347 | proof step: the same for any attempt that consumes available bytes |
| Conditioner.Emit | utf8conditioner.c:342-346 | the `putc` loop appends the first n bytes of the buffer |
| Conditioner.Resolve | utf8conditioner.c:271-331 | the verdict is `Decode`'s, and the bytes left to write are `Replacement`'s |
| Conditioner.ReadCharacter | utf8conditioner.c:215-269 | the lead byte and its continuation loop read exactly what `ScanAt` describes and leave those bytes in the buffer |
| Conditioner.ReadFrom | utf8conditioner.c:245-269 | the outcome of the continuation loop from round j: bytes consumed, value accumulated, and the premature-EOF or not-continuation fault |
| Conditioner.ReadFromShape | utf8conditioner.c:245-262 | the loop stops after the run of continuation bytes and reports why it stopped short |
| Conditioner.ReadFromCode | utf8conditioner.c:245-263 | the loop's value is the accumulation of the continuation bytes it consumed |
| Conditioner.ReadIsScan | utf8conditioner.c:245-269 | the loop's outcome behind a legal lead byte is `ScanAt`'s |
| Conditioner.ReadFromNext | utf8conditioner.c:249-263 | proof step: a continuation byte within the announced count is consumed and accumulated |
| Conditioner.ReadFromStop | utf8conditioner.c:245-267 | proof step: the loop ends where the continuation run ends: complete, at EOF, or at a non-continuation byte |
| Conditioner.AccumulateNext | utf8conditioner.c:263 | proof step: one more continuation byte shifts the value by six bits and adds its payload |
| Conditioner.ReadContinuations | utf8conditioner.c:245-269 | the imperative loop, with pushback and un-counting, reaches `ReadFrom`'s outcome and buffers the bytes it consumed |
| Conditioner.CheckCode | utf8conditioner.c:271-297 | the fault found is that of `Checks`: overlong, scalar value, XML 1.0, XML 1.1, deny-list, first failure wins |
| Conditioner.OnDenyList | utf8conditioner.c:290-295 | the scan up to the 0 terminator finds the code exactly when it is on the active deny-list |
| Conditioner.Substitute | utf8conditioner.c:300-324 | with -m and two or more bytes, each byte above 0x7F is replaced; otherwise a single substitute is left |
| Conditioner.WriteNcr | utf8conditioner.c:327-329 | the buffer holds the reference text, and its length is returned |
| ConditionerProperties.PassingStep | utf8conditioner.c:342-346 | proof step: a passing attempt copies the bytes read (nothing with -c), and logs and counts nothing |
| ConditionerProperties.IllegalLeadByte | utf8conditioner.c:239-242 | an illegal lead byte is a one-byte failure replaced by one substitute, even with -m |
| ConditionerProperties.FailureRepair | utf8conditioner.c:302-324 | a failed attempt writes one substitute, or with -m exactly one per byte consumed |
| ConditionerProperties.Resync | utf8conditioner.c:245-262 | an attempt cut short by a non-continuation byte stops in front of it, so that byte starts the next attempt; the message shows the bytes read, the offending one last |
| ConditionerProperties.ContinuationFromPayload | utf8conditioner.c:263 | a continuation byte is determined by its payload |
| ConditionerProperties.ClassifyLeadInjective | utf8conditioner.c:216-242 | a legal lead byte is determined by its count and bits |
| ConditionerProperties.AccumulateInjective | utf8conditioner.c:263 | a count of continuation bytes and the lead's bits are determined by the value they accumulate to |
| ConditionerProperties.EncodedLength | utf8conditioner.c:272-276 | a value that fits its form and is not overlong is RFC 3629-encoded in exactly that many bytes |
| ConditionerProperties.OnlyEncoding | utf8conditioner.c:272-276 | well-formed, non-overlong bytes that decode to a scalar value are that value's RFC 3629 encoding |
| ConditionerProperties.CompleteAttempt | utf8conditioner.c:245-297 | an attempt that did not fail read a lead byte and all announced continuation bytes, and its value passed the checks |
| ConditionerProperties.ShortestForm | utf8conditioner.c:271-276 | with the overlong check on, every character written or expanded was read as `Encode(code)` |
| ConditionerProperties.ContRunAll | utf8conditioner.c:245-262 | over a run of continuation bytes the loop reads the full announced count |
| ConditionerProperties.DecodeOfEncoding | utf8conditioner.c:211-331 | decoding an encoding consumes its bytes and yields its value; it passes iff the options accept it and fails iff they do not admit it |
| ConditionerProperties.AcceptedStep | utf8conditioner.c:211-347 | proof step: one iteration over an acceptable character's encoding copies it and counts one character |
| ConditionerProperties.PassStep | utf8conditioner.c:211-347 | proof step: the first iteration over acceptable text leaves the encoding of the rest ahead |
| ConditionerProperties.PassThroughFrom | utf8conditioner.c:211-347 | from any state, acceptable text is copied byte for byte, with one character per code point and no error or message |
| ConditionerProperties.PassThrough | utf8conditioner.c:243-248 | text of acceptable, well-encoded characters is output unchanged (nothing with -c), with numErrors 0 and no message |
| ConditionerProperties.NoNewLines | utf8conditioner.c:213 | continuation bytes are never line feeds |
| ConditionerProperties.ScanContinuations | utf8conditioner.c:245-262 | every byte an attempt consumes after its lead byte is a continuation byte |
| ConditionerProperties.LinesFrom | utf8conditioner.c:213 | the rest of a run adds exactly the line feeds of the rest of the input |
| ConditionerProperties.LineCounters | utf8conditioner.c:213 | proof step: one iteration moves the line feeds of the bytes it consumes into `linenum` |
| ConditionerProperties.LinesOfRest | utf8conditioner.c:213 | proof step: of an attempt's bytes only the lead byte can be a line feed |
| ConditionerProperties.LineCount | utf8conditioner.c:81-213 | the final `linenum` is one more than the number of line feeds in the input |
| ConditionerProperties.Iteration | utf8conditioner.c:211-347 | proof step: one iteration spelled out field by field, and the run continues from its result |
| ConditionerProperties.ReplacementLength | utf8conditioner.c:300-331 | an attempt writes at most one byte per byte read, five with reference expansion |
| ConditionerProperties.CountersFrom | utf8conditioner.c:211-301 | over the rest of a run, errors <= characters <= bytes read, and at most one message per character |
| ConditionerProperties.AppendOnlyFrom | utf8conditioner.c:334-346 | output and messages are only appended to |
| ConditionerProperties.CheckOnlyFrom | utf8conditioner.c:342 | with -c nothing is written |
| ConditionerProperties.OutputFrom | utf8conditioner.c:300-346 | output grows by at most `MaxOutput` of the bytes left |
| ConditionerProperties.Counts | utf8conditioner.c:211-351 | for the whole run: numErrors <= charnum <= bytenum == input length, messages <= characters, output bounded, empty with -c |
| ConditionerProperties.UnchangedFrom | utf8conditioner.c:300-346 | a run that counts no more errors copies the rest of the input and logs nothing more |
| ConditionerProperties.QuietStep | utf8conditioner.c:300-346 | proof step: an iteration that counts no failure copies its bytes and logs nothing |
| ConditionerProperties.NoErrorNoChange | utf8conditioner.c:300-346 | without -c and without expansion, a run with no error writes its input unchanged and prints nothing |
| ConditionerProperties.MessagesFrom | utf8conditioner.c:334-338 | the number of failure messages stays equal to `Shown` of the failures counted |
| ConditionerProperties.MessagesStep | utf8conditioner.c:334-338 | proof step: one iteration keeps that equality |
| ConditionerProperties.ErrorAccounting | utf8conditioner.c:334-351 | exactly `Shown(cfg, numErrors)` failure messages are logged; with a non-negative limit and no -q, messages plus the closing count equal numErrors |
| ConditionerProperties.NulNeverDenied | utf8conditioner.c:290 | NUL can never be denied, since 0 is the list's terminator |
| ConditionerProperties.DenyListEndsAtZero | utf8conditioner.c:290 | entries after the first 0 are never consulted (both directions) |
| ConditionerProperties.OverlongNul | utf8conditioner.c:272-276 | C0 80 is rejected as overlong code 0; with -l it is NUL, which passes unless an XML check is on |
| ConditionerProperties.SurrogateRejected | utf8conditioner.c:279-281 | ED A0 80 is U+D800 and fails the scalar check whatever the XML options |
| ConditionerProperties.ResyncExampleAttempts | utf8conditioner.c:245-262 | proof step: the four attempts on 41 C2 41 42 |
| ConditionerProperties.ResyncExample | utf8conditioner.c:245-262 | 41 C2 41 42 becomes 41 3F 41 42 with one error, reported at line 1, char 2, byte 2 |
| ConditionerProperties.RestrictedExample | utf8conditioner.c:326-331 | U+000B under -X 1.1 becomes `&#xB`, logged but not counted |
| ConditionerProperties.DenyListExample | utf8conditioner.c:289-295 | with -b 0x41, "AB" becomes "?B" with one error |
| ConditionerProperties.PerByteExampleAttempts | utf8conditioner.c:302-324 | proof step: the attempts on E2 82 41, and the repair with and without -m |
| ConditionerProperties.PerByteExample | utf8conditioner.c:302-324 | E2 82 41 becomes `?A`, or `??A` with -m, and the `A` is re-read |

## Left out

- Option parsing and process control (utf8conditioner.c:111-205), including
  `getopt`, `strtoul`, the usage and licence text, and the exit code, are
  left out. The options arrive as a `Config` record. `maxErrors` is an `int`,
  so the negative limits that `-e` can produce are covered.
- Real stdio is left out. `getc`, `ungetc` and `putc` are a read position in
  an input sequence and appends to an output sequence.
- The text of the diagnostics (`snprintf`/`strncat` into `error` and `buf`,
  and the `fprintf` calls) is left out. Each message is a `Diagnostic`
  holding the line, character and byte numbers and the verdict. The closing
  line is its count. The 200-byte truncation of `error` is not modelled.
- The counters `bytenum`, `charnum` and `linenum` are `nat`, so the overflow
  of the `unsigned long` counters is not modelled.
  - `numErrors` is a C `int`; it is also a `nat`, and its overflow is not
    modelled.
  - The 32-bit `unicode` accumulator needs no wrap-around:
    `Utf8.DecodedWithinTable` shows it stays below 2^31.
- Conditioner.Summary: computes `numErrors - maxErrors` with unbounded
  integers, while line 350 subtracts two `int`s. With a limit near INT_MIN
  (`-e 2147483648` makes it INT_MIN) that subtraction overflows, which is
  undefined behaviour in C. The model's count is then a value no `int` holds.
- `Conditioner.Substitute` does not model the value of `byte[j]` that the
  `-m` test reads at line 307. That byte may be stale from an earlier
  character or be the pushed-back byte. The disjunct it feeds never changes
  the bytes written, because every byte of a multi-byte attempt is above
  0x7F. Like the source, the loop also tests `byte[j]` itself and may
  overwrite it; that byte is never written out.
- The substitute is a `Byte` (0 to 255). The source keeps it in an `int` and
  `putc` writes its low eight bits.
- Parsing of character or entity references in the input is left out: the
  source has no such code.
