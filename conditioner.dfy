/** The stream conditioner of utf8conditioner.c (the loop at lines 211-351).

    The specification comes first, as functions: one decode attempt
    (`ScanAt`, `Checks`, `Decode`), what it writes (`Replacement`), one
    iteration of the loop (`Step`) and the whole run (`RunFrom`,
    `Conditioned`). The loop itself is the method `Condition`, proved to
    produce exactly the state `Conditioned` describes.

    Standard input is a sequence of bytes read at a position: `getc` reads
    `input[pos]` and advances, EOF is `pos == |input|`, and the one-byte
    `ungetc` steps the position back over the byte just read. Standard output
    is a sequence the loop appends to; standard error is a log of diagnostics. */
module Conditioner {
  import opened CodePoints
  import opened Utf8
  import opened CharRef

  datatype Option<T> = None | Some(value: T)

  /** The settings the options produce before the loop starts
      (utf8conditioner.c:84-99, 149-190); never changed by the loop. */
  datatype Config = Config(
    substitute: Byte,        // -s: substituteChar, '?' by default
    xml10: bool,             // -x or -X 1.0: checkXML1_0Chars
    xml11: bool,             // -X 1.1 or -X 1.1lax: checkXML1_1Chars
    xml11Restricted: bool,   // -X 1.1: checkXML1_1Restricted
    checkOverlong: bool,     // cleared by -l
    perByte: bool,           // -m: badMultiByteToMultiChar
    badChars: seq<nat>,      // -b codes in the order given; the array's 0 terminator follows them
    maxErrors: int,          // -e: messages printed at most, 0 for no limit
    quiet: bool,             // -q
    checkOnly: bool)         // -c

  /** The settings with no option given. */
  const DefaultConfig := Config(0x3F, false, false, false, true, false, [], 1000, false, false)

  /** Why a decode attempt failed: one kind per message the loop builds. */
  datatype Fault =
    | IllegalByte(b: Byte)                // line 240: not a lead byte
    | NotContinuation(seen: seq<Byte>)    // lines 251-258: bytes read, the offending one last
    | PrematureEnd(index: nat)            // line 265: EOF where byte `index` was due
    | Overlong(code: nat)                 // line 274
    | IllegalCode(code: nat)              // line 280: not a scalar value
    | NotXml10(code: nat)                 // line 286
    | NotXml11(code: nat)                 // line 288
    | BadCode(code: nat)                  // line 292: on the deny-list

  /** Outcome of one attempt: passed, an XML 1.1 restricted character to be
      written as a character reference, or failed. */
  datatype Verdict = Pass | Restricted(code: nat) | Fail(fault: Fault)

  datatype Counters = Counters(bytenum: nat, charnum: nat, linenum: nat, numErrors: nat)

  /** One line on standard error: `Line <n>, char <n>, byte <n>: <message>`. */
  datatype Diagnostic = Diagnostic(line: nat, charNum: nat, byteNum: nat, verdict: Verdict)

  /** The loop's state between iterations. `counters.bytenum` is also the
      position of the next byte to read. */
  datatype State = State(counters: Counters, output: seq<Byte>, log: seq<Diagnostic>)

  /** The deny-list as the loop sees it: the codes before the first 0, which
      the source uses as the array's terminator (lines 99, 160-161, 290). */
  function ActiveBadChars(list: seq<nat>): (p: seq<nat>)
    ensures |p| <= |list| && p == list[..|p|]
    ensures forall i :: 0 <= i < |p| ==> p[i] != 0
    ensures |p| < |list| ==> list[|p|] == 0
    decreases |list|
  {
    if list == [] || list[0] == 0 then [] else [list[0]] + ActiveBadChars(list[1..])
  }

  predicate Denied(list: seq<nat>, code: nat) {
    code in ActiveBadChars(list)
  }

  /** The number of continuation bytes that follow position `from`, up to
      `limit`: reading stops at the limit, at the end of the input or before
      the first byte that is not 10xxxxxx. */
  function ContRun(input: seq<Byte>, from: nat, limit: nat): (k: nat)
    requires from <= |input|
    ensures k <= limit && from + k <= |input|
    decreases limit
  {
    if limit == 0 || from == |input| || !IsContinuation(input[from]) then 0
    else 1 + ContRun(input, from + 1, limit - 1)
  }

  /** The bytes counted are continuation bytes, and the count stops short of
      the limit only at the end of the input or before a byte that is not one. */
  lemma {:induction false} ContRunStops(input: seq<Byte>, from: nat, limit: nat)
    requires from <= |input|
    ensures var k := ContRun(input, from, limit);
      && (forall i :: from <= i < from + k ==> IsContinuation(input[i]))
      && (k < limit ==> from + k == |input| || !IsContinuation(input[from + k]))
    decreases limit
  {
    if limit > 0 && from < |input| && IsContinuation(input[from]) {
      ContRunStops(input, from + 1, limit - 1);
    }
  }

  /** The structural part of one attempt (lines 212-269): the bytes it
      consumes, the continuation count its lead byte announced, the value
      accumulated so far and the structural fault, if any. */
  datatype Scan = Scan(consumed: nat, contBytes: nat, code: nat, fault: Option<Fault>)

  function ScanAt(input: seq<Byte>, pos: nat): (s: Scan)
    requires pos < |input|
    ensures 1 <= s.consumed <= s.contBytes + 1 && s.contBytes <= 5
    ensures pos + s.consumed <= |input|
    ensures s.fault.None? ==> s.consumed == s.contBytes + 1
  {
    var ch := input[pos];
    match ClassifyLead(ch)
    case IllegalLead => Scan(1, 0, ch, Some(IllegalByte(ch)))
    case Lead(cont, bits) =>
      var k := ContRun(input, pos + 1, cont);
      Scan(1 + k, cont, Accumulate(bits, input[pos + 1 .. pos + 1 + k]),
        if k == cont then None
        else if pos + 1 + k == |input| then Some(PrematureEnd(1 + k))
        else Some(NotContinuation(input[pos .. pos + 2 + k])))
  }

  /** The checks on a structurally complete character, in the source's order
      (lines 271-297): overlong form, scalar value, XML 1.0, XML 1.1,
      deny-list. The first that fails decides. */
  function Checks(cfg: Config, contBytes: nat, code: nat): Option<Fault>
    requires contBytes <= 5
  {
    if cfg.checkOverlong && contBytes > 0 && code <= HighestCharInNBytes(contBytes - 1) then Some(Overlong(code))
    else if !ValidUtf8Char(code) then Some(IllegalCode(code))
    else if cfg.xml10 && !ValidXml10Char(code) then Some(NotXml10(code))
    else if cfg.xml11 && !ValidXml11Char(code) then Some(NotXml11(code))
    else if Denied(cfg.badChars, code) then Some(BadCode(code))
    else None
  }

  datatype Attempt = Attempt(consumed: nat, code: nat, verdict: Verdict)

  /** One decode attempt at `pos`. A character that passed every check is
      still turned into a reference when it is XML 1.1 restricted and that
      option is on (line 327). */
  function Decode(cfg: Config, input: seq<Byte>, pos: nat): (a: Attempt)
    requires pos < |input|
    ensures 1 <= a.consumed <= 6 && pos + a.consumed <= |input|
  {
    var s := ScanAt(input, pos);
    var verdict :=
      if s.fault.Some? then Fail(s.fault.value)
      else match Checks(cfg, s.contBytes, s.code)
        case Some(f) => Fail(f)
        case None => if cfg.xml11Restricted && RestrictedXml11Char(s.code) then Restricted(s.code) else Pass;
    Attempt(s.consumed, s.code, verdict)
  }

  /** An attempt consumes what its structural scan consumed and reports the
      value the scan accumulated. */
  lemma DecodeScan(cfg: Config, input: seq<Byte>, pos: nat)
    requires pos < |input|
    ensures Decode(cfg, input, pos).consumed == ScanAt(input, pos).consumed
    ensures Decode(cfg, input, pos).code == ScanAt(input, pos).code
  {
  }

  /** The -m rule (lines 306-310): every byte above 0x7F is replaced. The
      rule's second disjunct tests `byte[j]`, a byte that is never written
      out; see `Substitute`. */
  function SubstituteEach(sub: Byte, bs: seq<Byte>): seq<Byte> {
    seq(|bs|, i requires 0 <= i < |bs| => if bs[i] > 0x7F then sub else bs[i])
  }

  /** What one attempt writes (lines 300-331, 339, 343-345): the bytes read
      when it passed, the reference text for a restricted character, and for a
      failure one substitute, or with -m after two or more bytes the per-byte
      replacement. */
  function Replacement(cfg: Config, input: seq<Byte>, pos: nat, a: Attempt): seq<Byte>
    requires pos + a.consumed <= |input|
  {
    match a.verdict
    case Pass => input[pos .. pos + a.consumed]
    case Restricted(code) => Ncr(code)
    case Fail(_) =>
      if cfg.perByte && a.consumed > 1 then SubstituteEach(cfg.substitute, input[pos .. pos + a.consumed])
      else [cfg.substitute]
  }

  /** The message gate of line 335. */
  predicate Reported(cfg: Config, numErrors: nat) {
    !cfg.quiet && (numErrors <= cfg.maxErrors || cfg.maxErrors == 0)
  }

  /** One iteration of the loop: read a lead byte and count it (lines
      211-213), decode, count a failure (line 301), log (lines 334-338) and
      write (lines 342-346). A restricted character is logged but not counted. */
  function Step(cfg: Config, input: seq<Byte>, s: State): (t: State)
    requires s.counters.bytenum < |input|
    ensures s.counters.bytenum < t.counters.bytenum <= |input|
  {
    Advance(cfg, input, s, Decode(cfg, input, s.counters.bytenum))
  }

  /** The iteration of `Step` for the attempt `a` made at the current
      position. */
  function Advance(cfg: Config, input: seq<Byte>, s: State, a: Attempt): (t: State)
    requires s.counters.bytenum < |input| && 1 <= a.consumed && s.counters.bytenum + a.consumed <= |input|
    ensures s.counters.bytenum < t.counters.bytenum <= |input|
  {
    var c := s.counters;
    var linenum := if input[c.bytenum] == 0x0A then c.linenum + 1 else c.linenum;
    var numErrors := if a.verdict.Fail? then c.numErrors + 1 else c.numErrors;
    var counters := Counters(c.bytenum + a.consumed, c.charnum + 1, linenum, numErrors);
    var log :=
      if !a.verdict.Pass? && Reported(cfg, numErrors)
      then s.log + [Diagnostic(linenum, c.charnum + 1, c.bytenum + a.consumed, a.verdict)]
      else s.log;
    var output := if cfg.checkOnly then s.output else s.output + Replacement(cfg, input, c.bytenum, a);
    State(counters, output, log)
  }

  /** The loop run from state `s` to the end of the input. */
  function RunFrom(cfg: Config, input: seq<Byte>, s: State): (t: State)
    requires s.counters.bytenum <= |input|
    ensures t.counters.bytenum == |input|
    decreases |input| - s.counters.bytenum
  {
    if s.counters.bytenum == |input| then s else RunFrom(cfg, input, Step(cfg, input, s))
  }

  /** Counters as initialised at lines 79-85; nothing written or logged yet. */
  const Start := State(Counters(0, 0, 1, 0), [], [])

  /** The whole run: every input byte is consumed. */
  function Conditioned(cfg: Config, input: seq<Byte>): (t: State)
    ensures t.counters.bytenum == |input|
  {
    RunFrom(cfg, input, Start)
  }

  /** The closing line of lines 349-350, `<n> additional errors not
      reported.`, when it is printed. */
  function Summary(cfg: Config, numErrors: nat): (r: Option<int>)
    ensures r.Some? ==> r.value > 0 && !cfg.quiet
  {
    if !cfg.quiet && numErrors > cfg.maxErrors && cfg.maxErrors != 0
    then Some(numErrors - cfg.maxErrors) else None
  }

  /** Every byte of an attempt that consumed two or more bytes is above 0x7F:
      a multi-byte lead byte and continuation bytes. */
  lemma ConsumedHighBytes(input: seq<Byte>, pos: nat)
    requires pos < |input|
    ensures ScanAt(input, pos).consumed > 1 ==>
      forall i :: pos <= i < pos + ScanAt(input, pos).consumed ==> input[i] > 0x7F
  {
  }

  // ---------------------------------------------------------------------
  // The loop
  // ---------------------------------------------------------------------

  /** The main loop of utf8conditioner.c (lines 211-351). */
  method Condition(cfg: Config, input: seq<Byte>)
      returns (output: seq<Byte>, counters: Counters, log: seq<Diagnostic>, summary: Option<int>)
    ensures State(counters, output, log) == Conditioned(cfg, input)
    ensures counters.bytenum == |input|
    ensures summary == Summary(cfg, counters.numErrors)
  {
    var bytes := new Byte[10];
    counters, output, log := Counters(0, 0, 1, 0), [], [];
    while counters.bytenum < |input|
      invariant counters.bytenum <= |input|
      invariant RunFrom(cfg, input, State(counters, output, log)) == Conditioned(cfg, input)
      decreases |input| - counters.bytenum
    {
      RunFromStep(cfg, input, State(counters, output, log));
      counters, output, log := ConditionCharacter(cfg, input, bytes, counters, output, log);
    }
    var numErrors := counters.numErrors;
    if !cfg.quiet && numErrors > cfg.maxErrors && cfg.maxErrors != 0 {
      summary := Some(numErrors - cfg.maxErrors);
    } else {
      summary := None;
    }
  }

  /** One iteration of the main loop (lines 211-347): the stream position is
      `bytenum`, which the source keeps equal to it by un-counting a byte it
      pushes back (lines 259-260). */
  method ConditionCharacter(cfg: Config, input: seq<Byte>, bytes: array<Byte>,
                            counters: Counters, output: seq<Byte>, log: seq<Diagnostic>)
      returns (counters': Counters, output': seq<Byte>, log': seq<Diagnostic>)
    requires counters.bytenum < |input| && bytes.Length == 10
    modifies bytes
    ensures State(counters', output', log') == Step(cfg, input, State(counters, output, log))
  {
    var start := counters.bytenum;
    var bytenum, charnum, linenum, numErrors := counters.bytenum, counters.charnum, counters.linenum, counters.numErrors;
    var ch := input[start];
    bytenum, charnum := bytenum + 1, charnum + 1;
    if ch == 0x0A {
      linenum := linenum + 1;
    }
    var pos, j, contBytes, unicode, fault;
    pos, bytenum, j, contBytes, unicode, fault := ReadCharacter(input, bytenum, bytenum, ch, bytes);
    var message;
    message, j := Resolve(cfg, input, start, bytes, j, contBytes, unicode, fault);
    ghost var a := Decode(cfg, input, start);
    DecodeScan(cfg, input, start);
    ghost var written := bytes[..j];
    assert message == a.verdict && written == Replacement(cfg, input, start, a) && bytenum == start + a.consumed;
    assert message.Pass? ==> contBytes + 1 == j;
    numErrors, output', log' := Record(cfg, output, log, numErrors, linenum, charnum, bytenum, message, bytes, j, contBytes);
    counters' := Counters(bytenum, charnum, linenum, numErrors);
    NextState(cfg, input, State(counters, output, log), State(counters', output', log'), a, written);
  }

  /** Lines 301 and 333-346, after the attempt has been resolved: count a
      failure, log a failure or restricted character if the gate of line 335
      lets it through (a failure resets `contBytes` to the bytes read), and
      write `bytes[..contBytes + 1]` unless -c. */
  method Record(cfg: Config, output: seq<Byte>, log: seq<Diagnostic>, numErrors: nat,
                linenum: nat, charnum: nat, bytenum: nat, message: Verdict,
                bytes: array<Byte>, j: nat, contBytes: nat)
      returns (numErrors': nat, output': seq<Byte>, log': seq<Diagnostic>)
    requires 1 <= j <= bytes.Length && (message.Pass? ==> contBytes + 1 == j)
    ensures numErrors' == if message.Fail? then numErrors + 1 else numErrors
    ensures log' == if !message.Pass? && Reported(cfg, numErrors')
      then log + [Diagnostic(linenum, charnum, bytenum, message)] else log
    ensures output' == if cfg.checkOnly then output else output + bytes[..j]
  {
    var contBytes := contBytes;
    numErrors' := numErrors;
    if message.Fail? {
      numErrors' := numErrors' + 1;
    }
    log' := log;
    if !message.Pass? {
      if Reported(cfg, numErrors') {
        log' := log + [Diagnostic(linenum, charnum, bytenum, message)];
      }
      contBytes := j - 1;
    }
    output' := output;
    if !cfg.checkOnly {
      output' := Emit(output, bytes, contBytes + 1);
    }
  }

  /** A state built field by field as one iteration of the loop builds it
      continues the same run as the state before the iteration. */
  lemma NextState(cfg: Config, input: seq<Byte>, s: State, t: State, a: Attempt, written: seq<Byte>)
    requires s.counters.bytenum < |input| && a == Decode(cfg, input, s.counters.bytenum)
    requires written == Replacement(cfg, input, s.counters.bytenum, a)
    requires t.counters.bytenum == s.counters.bytenum + a.consumed
    requires t.counters.charnum == s.counters.charnum + 1
    requires t.counters.linenum == if input[s.counters.bytenum] == 0x0A then s.counters.linenum + 1 else s.counters.linenum
    requires t.counters.numErrors == if a.verdict.Fail? then s.counters.numErrors + 1 else s.counters.numErrors
    requires t.output == if cfg.checkOnly then s.output else s.output + written
    requires t.log == if !a.verdict.Pass? && Reported(cfg, t.counters.numErrors)
      then s.log + [Diagnostic(t.counters.linenum, t.counters.charnum, t.counters.bytenum, a.verdict)]
      else s.log
    ensures t == Step(cfg, input, s)
  {
    AdvanceFields(cfg, input, s, t, a, written);
  }

  /** The same, for any attempt that consumes at least one available byte. */
  lemma AdvanceFields(cfg: Config, input: seq<Byte>, s: State, t: State, a: Attempt, written: seq<Byte>)
    requires s.counters.bytenum < |input| && 1 <= a.consumed && s.counters.bytenum + a.consumed <= |input|
    requires written == Replacement(cfg, input, s.counters.bytenum, a)
    requires t.counters.bytenum == s.counters.bytenum + a.consumed
    requires t.counters.charnum == s.counters.charnum + 1
    requires t.counters.linenum == if input[s.counters.bytenum] == 0x0A then s.counters.linenum + 1 else s.counters.linenum
    requires t.counters.numErrors == if a.verdict.Fail? then s.counters.numErrors + 1 else s.counters.numErrors
    requires t.output == if cfg.checkOnly then s.output else s.output + written
    requires t.log == if !a.verdict.Pass? && Reported(cfg, t.counters.numErrors)
      then s.log + [Diagnostic(t.counters.linenum, t.counters.charnum, t.counters.bytenum, a.verdict)]
      else s.log
    ensures t == Advance(cfg, input, s, a)
  {
    var u := Advance(cfg, input, s, a);
    assert u.counters == t.counters;
    assert u.output == t.output;
    assert u.log == t.log;
  }

  /** The counters after one iteration. */
  lemma StepCounters(cfg: Config, input: seq<Byte>, s: State)
    requires s.counters.bytenum < |input|
    ensures var c, a := s.counters, Decode(cfg, input, s.counters.bytenum);
      Step(cfg, input, s).counters == Counters(c.bytenum + a.consumed, c.charnum + 1,
        if input[c.bytenum] == 0x0A then c.linenum + 1 else c.linenum,
        if a.verdict.Fail? then c.numErrors + 1 else c.numErrors)
  {
  }

  /** The run from a state not at the end of the input is the run from the
      state one iteration later. */
  lemma RunFromStep(cfg: Config, input: seq<Byte>, s: State)
    requires s.counters.bytenum < |input|
    ensures RunFrom(cfg, input, s) == RunFrom(cfg, input, Step(cfg, input, s))
  {
  }

  /** Lines 342-346: `putc` of `bytes[0..n-1]` appends them to the output. */
  method Emit(output: seq<Byte>, bytes: array<Byte>, n: nat) returns (written: seq<Byte>)
    requires n <= bytes.Length
    ensures written == output + bytes[..n]
  {
    written := output;
    var k := 0;
    while k < n
      invariant 0 <= k <= n
      invariant written == output + bytes[..k]
    {
      written := written + [bytes[k]];
      k := k + 1;
    }
  }

  /** Lines 271-331 for the attempt that read `bytes[..j]` from
      `input[start..]`: run the checks unless a structural fault is already
      recorded, then repair a failure (counted by the caller, line 301) or
      expand a restricted character. The returned verdict stands for the
      source's error string, `Pass` for an empty one; `n` is the number of
      bytes of `bytes` to write. */
  method Resolve(cfg: Config, input: seq<Byte>, start: nat, bytes: array<Byte>,
                 j: nat, contBytes: nat, unicode: nat, fault: Option<Fault>)
      returns (message: Verdict, n: nat)
    requires start < |input| && bytes.Length == 10
    requires var s := ScanAt(input, start);
      j == s.consumed && contBytes == s.contBytes && unicode == s.code && fault == s.fault
    requires bytes[..j] == input[start .. start + j]
    modifies bytes
    ensures var a := Decode(cfg, input, start);
      message == a.verdict && 1 <= n <= bytes.Length && bytes[..n] == Replacement(cfg, input, start, a)
    ensures message.Pass? ==> n == contBytes + 1
  {
    assert forall i :: 0 <= i < j ==> bytes[i] == input[start + i] by {
      forall i | 0 <= i < j ensures bytes[i] == input[start + i] {
        assert bytes[..j][i] == input[start .. start + j][i];
      }
    }
    message := if fault.Some? then Fail(fault.value) else Pass;
    if message.Pass? {
      var checked := CheckCode(cfg, contBytes, unicode);
      if checked.Some? {
        message := Fail(checked.value);
      }
    }
    n := j;
    if message.Fail? {
      ConsumedHighBytes(input, start);
      n := Substitute(cfg, bytes, j);
    } else if cfg.xml11Restricted && RestrictedXml11Char(unicode) {
      HexDigitsLength(unicode);
      n := WriteNcr(bytes, unicode);
      message := Restricted(unicode);
    }
  }

  /** Lines 215-269: classify the lead byte `ch`, just read from
      `input[pos0 - 1]`, and read the continuation bytes it announces into
      `bytes`, accumulating the code point. */
  method ReadCharacter(input: seq<Byte>, pos0: nat, bytenum0: nat, ch: Byte, bytes: array<Byte>)
      returns (pos: nat, bytenum: nat, j: nat, contBytes: nat, unicode: nat, fault: Option<Fault>)
    requires 0 < pos0 <= |input| && input[pos0 - 1] == ch && bytenum0 == pos0
    requires bytes.Length == 10
    modifies bytes
    ensures var s := ScanAt(input, pos0 - 1);
      && pos == bytenum == pos0 - 1 + s.consumed
      && j == s.consumed && contBytes == s.contBytes && unicode == s.code && fault == s.fault
    ensures bytes[..j] == input[pos0 - 1 .. pos]
  {
    var lead := ClassifyLead(ch);
    unicode := ch;
    if lead.IllegalLead? {
      fault := Some(IllegalByte(ch));
      contBytes := 0;
    } else {
      contBytes, unicode := lead.contBytes, lead.bits;
    }
    bytes[0] := ch;
    if lead.IllegalLead? {
      pos, bytenum, j := pos0, bytenum0, 1;
    } else {
      pos, bytenum, j, unicode, fault := ReadContinuations(input, pos0 - 1, contBytes, unicode, bytes);
      ReadIsScan(input, pos0 - 1, lead.contBytes, lead.bits, Read(j, unicode, fault));
    }
  }

  /** What the loop of lines 245-269 yields from its round `j` on, `unicode`
      holding what the rounds before accumulated: the bytes consumed so far,
      the code point and the structural fault, if any. */
  datatype Read = Read(consumed: nat, code: nat, fault: Option<Fault>)

  function ReadFrom(input: seq<Byte>, start: nat, contBytes: nat, j: nat, unicode: nat): Read
    requires 1 <= j && start + j <= |input|
    decreases contBytes + 1 - j
  {
    if j > contBytes then Read(j, unicode, None)
    else if start + j == |input| then Read(j, unicode, Some(PrematureEnd(j)))
    else if !IsContinuation(input[start + j]) then Read(j, unicode, Some(NotContinuation(input[start .. start + j + 1])))
    else ReadFrom(input, start, contBytes, j + 1, unicode * 64 + Payload(input[start + j]))
  }

  /** The loop stops where the run of continuation bytes behind the lead
      byte stops, and reports why it stopped short, exactly as `ScanAt`
      describes the attempt; this does not depend on the value accumulated. */
  lemma {:induction false} ReadFromShape(input: seq<Byte>, start: nat, contBytes: nat, j: nat, unicode: nat)
    requires 1 <= j && start + j <= |input|
    requires j - 1 <= ContRun(input, start + 1, contBytes)
    ensures var r, k := ReadFrom(input, start, contBytes, j, unicode), ContRun(input, start + 1, contBytes);
      && r.consumed == 1 + k
      && r.fault == if k == contBytes then None
                    else if start + 1 + k == |input| then Some(PrematureEnd(1 + k))
                    else Some(NotContinuation(input[start .. start + 2 + k]))
    decreases contBytes + 1 - j
  {
    if j - 1 < ContRun(input, start + 1, contBytes) {
      ReadFromNext(input, start, contBytes, j, unicode);
      ReadFromShape(input, start, contBytes, j + 1, unicode * 64 + Payload(input[start + j]));
    } else {
      ReadFromStop(input, start, contBytes, j, unicode);
    }
  }

  /** The value the loop reports is the payload of every byte it consumed,
      accumulated on the lead byte's bits. */
  lemma {:induction false} ReadFromCode(input: seq<Byte>, start: nat, contBytes: nat, bits: nat, j: nat, unicode: nat)
    requires 1 <= j && start + j <= |input|
    requires unicode == Accumulate(bits, input[start + 1 .. start + j])
    ensures var r := ReadFrom(input, start, contBytes, j, unicode);
      && j <= r.consumed && start + r.consumed <= |input|
      && r.code == Accumulate(bits, input[start + 1 .. start + r.consumed])
    decreases contBytes + 1 - j
  {
    if j <= contBytes && start + j < |input| && IsContinuation(input[start + j]) {
      var next := unicode * 64 + Payload(input[start + j]);
      AccumulateNext(bits, input, start + 1, start + j);
      ReadFromCode(input, start, contBytes, bits, j + 1, next);
      assert ReadFrom(input, start, contBytes, j, unicode) == ReadFrom(input, start, contBytes, j + 1, next);
    }
  }

  /** What the loop reads behind a lead byte is what `ScanAt` describes. */
  lemma ReadIsScan(input: seq<Byte>, start: nat, cont: nat, bits: nat, r: Read)
    requires start < |input| && ClassifyLead(input[start]) == Lead(cont, bits)
    requires r == ReadFrom(input, start, cont, 1, bits)
    ensures ScanAt(input, start) == Scan(r.consumed, cont, r.code, r.fault)
  {
    assert input[start + 1 .. start + 1] == [];
    ReadFromShape(input, start, cont, 1, bits);
    ReadFromCode(input, start, cont, bits, 1, bits);
  }

  /** A continuation byte within the announced count is consumed. */
  lemma ReadFromNext(input: seq<Byte>, start: nat, contBytes: nat, j: nat, unicode: nat)
    requires 1 <= j && start + j <= |input|
    requires j - 1 < ContRun(input, start + 1, contBytes)
    ensures ReadFrom(input, start, contBytes, j, unicode)
         == ReadFrom(input, start, contBytes, j + 1, unicode * 64 + Payload(input[start + j]))
  {
    ContRunStops(input, start + 1, contBytes);
    assert IsContinuation(input[start + j]);
  }

  /** Reading stops where the run of continuation bytes ends. */
  lemma ReadFromStop(input: seq<Byte>, start: nat, contBytes: nat, j: nat, unicode: nat)
    requires 1 <= j && start + j <= |input|
    requires j - 1 == ContRun(input, start + 1, contBytes)
    ensures ReadFrom(input, start, contBytes, j, unicode) ==
      Read(j, unicode,
        if j - 1 == contBytes then None
        else if start + j == |input| then Some(PrematureEnd(j))
        else Some(NotContinuation(input[start .. start + j + 1])))
  {
    ContRunStops(input, start + 1, contBytes);
  }

  /** One more continuation byte adds six bits to the accumulator. */
  lemma AccumulateNext(bits: nat, input: seq<Byte>, lo: nat, hi: nat)
    requires lo <= hi < |input|
    ensures Accumulate(bits, input[lo .. hi + 1]) == Accumulate(bits, input[lo .. hi]) * 64 + Payload(input[hi])
  {
    assert input[lo .. hi + 1][..hi - lo] == input[lo .. hi];
  }

  /** Lines 245-269: read up to `contBytes` continuation bytes after the lead
      byte at `start` (already in `bytes[0]`), adding six bits to `unicode`
      for each. A byte that is not 10xxxxxx is pushed back and un-counted
      (lines 259-260), so the next attempt starts at it; EOF ends the attempt. */
  method ReadContinuations(input: seq<Byte>, start: nat, contBytes: nat, bits: nat, bytes: array<Byte>)
      returns (pos: nat, bytenum: nat, j: nat, unicode: nat, fault: Option<Fault>)
    requires start < |input| && contBytes < bytes.Length
    requires bytes[0] == input[start]
    modifies bytes
    ensures Read(j, unicode, fault) == ReadFrom(input, start, contBytes, 1, bits)
    ensures 1 <= j <= contBytes + 1 && pos == bytenum == start + j <= |input|
    ensures bytes[..j] == input[start .. pos]
  {
    pos, bytenum := start + 1, start + 1;
    unicode, fault := bits, None;
    j := 1;
    while j <= contBytes
      invariant 1 <= j <= contBytes + 1
      invariant pos == bytenum == start + j <= |input|
      invariant forall i :: 0 <= i < j ==> bytes[i] == input[start + i]
      invariant ReadFrom(input, start, contBytes, j, unicode) == ReadFrom(input, start, contBytes, 1, bits)
      invariant fault.None?
    {
      if pos < |input| {
        var c := input[pos];
        pos, bytenum := pos + 1, bytenum + 1;
        bytes[j] := c;
        if !IsContinuation(c) {
          fault := Some(NotContinuation(bytes[..j + 1]));
          pos, bytenum := pos - 1, bytenum - 1;
          SamePrefix(bytes[..], input, start, j + 1);
          break;
        }
        unicode := unicode * 64 + Payload(c);
      } else {
        fault := Some(PrematureEnd(j));
        break;
      }
      j := j + 1;
    }
    SamePrefix(bytes[..], input, start, j);
  }

  /** A buffer that agrees with the input byte by byte holds its slice. */
  lemma SamePrefix(buf: seq<Byte>, input: seq<Byte>, start: nat, n: nat)
    requires n <= |buf| && start + n <= |input|
    requires forall i :: 0 <= i < n ==> buf[i] == input[start + i]
    ensures buf[..n] == input[start .. start + n]
  {
  }

  /** Lines 271-297: the checks on a complete character, the deny-list
      scanned up to its 0 terminator. */
  method CheckCode(cfg: Config, contBytes: nat, unicode: nat) returns (fault: Option<Fault>)
    requires contBytes <= 5
    ensures fault == Checks(cfg, contBytes, unicode)
  {
    fault := None;
    if cfg.checkOverlong && contBytes > 0 && unicode <= HighestCharInNBytes(contBytes - 1) {
      fault := Some(Overlong(unicode));
    }
    if fault.None? && !ValidUtf8Char(unicode) {
      fault := Some(IllegalCode(unicode));
    }
    if fault.None? {
      if cfg.xml10 && !ValidXml10Char(unicode) {
        fault := Some(NotXml10(unicode));
      } else if cfg.xml11 && !ValidXml11Char(unicode) {
        fault := Some(NotXml11(unicode));
      } else {
        var denied := OnDenyList(cfg.badChars, unicode);
        if denied {
          fault := Some(BadCode(unicode));
        }
      }
    }
  }

  /** Lines 290-295: scan the deny-list for `unicode`, stopping at the first
      match or at the 0 terminator. */
  method OnDenyList(badChars: seq<nat>, unicode: nat) returns (found: bool)
    ensures found == Denied(badChars, unicode)
  {
    ghost var active := ActiveBadChars(badChars);
    found := false;
    var k := 0;
    while k < |badChars| && badChars[k] != 0
      invariant k <= |active|
      invariant unicode !in active[..k]
    {
      if unicode == badChars[k] {
        found := true;
        break;
      }
      k := k + 1;
    }
  }

  /** Lines 302-324: replace the bytes of a failed attempt. With -m and two or
      more bytes read, bytes 0..j are tested one by one; otherwise a single
      substitute replaces them all. The returned count is the number of bytes
      to write. The -m test also replaces `byte[k]` when XML 1.0 checking is
      on and `byte[j]`, one past the bytes read, is not an XML 1.0 character;
      since every byte read is above 0x7F, that never changes what is written. */
  method Substitute(cfg: Config, bytes: array<Byte>, j: nat) returns (n: nat)
    requires 1 <= j < bytes.Length
    requires j > 1 ==> forall i :: 0 <= i < j ==> bytes[i] > 0x7F
    modifies bytes
    ensures n == (if cfg.perByte && j > 1 then j else 1)
    ensures bytes[..n] == if cfg.perByte && j > 1 then SubstituteEach(cfg.substitute, old(bytes[..j]))
                           else [cfg.substitute]
  {
    if cfg.perByte && j > 1 {
      var k := 0;
      while k <= j
        invariant 0 <= k <= j + 1
        invariant forall i :: 0 <= i < k && i < j ==> bytes[i] == cfg.substitute
        invariant forall i :: k <= i < j ==> bytes[i] == old(bytes[i])
      {
        if bytes[k] > 0x7F || (cfg.xml10 && !ValidXml10Char(bytes[j])) {
          bytes[k] := cfg.substitute;
        }
        k := k + 1;
      }
      n := j;
    } else {
      bytes[0] := cfg.substitute;
      n := 1;
    }
  }

  /** Lines 327-329: print `&#x%X` into a buffer and copy it, with its NUL,
      into `bytes`; the returned count is the text's length. */
  method WriteNcr(bytes: array<Byte>, unicode: nat) returns (j: nat)
    requires |Ncr(unicode)| < bytes.Length
    modifies bytes
    ensures j == |Ncr(unicode)| && bytes[..j] == Ncr(unicode)
  {
    var buf := Ncr(unicode) + [0];
    j := |buf| - 1;
    var k := 0;
    while k <= j
      invariant 0 <= k <= j + 1
      invariant forall i :: 0 <= i < k ==> bytes[i] == buf[i]
    {
      bytes[k] := buf[k];
      k := k + 1;
    }
    assert bytes[..j] == buf[..j];
  }
}
