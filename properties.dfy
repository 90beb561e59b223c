/** What the conditioner promises, proved about the specification functions
    of module Conditioner (and so, through `Conditioner.Condition`, about the
    loop of utf8conditioner.c): per attempt, the repair rules, resynchronisation
    and the shortest-form guarantee; per run, pass-through of acceptable text,
    line counting, error accounting and the size of the output. */
module ConditionerProperties {
  import opened CodePoints
  import opened Utf8
  import opened CharRef
  import opened Conditioner

  /** An iteration whose attempt passes copies the bytes it read (unless
      -c) and leaves the error count and the log alone. */
  lemma PassingStep(cfg: Config, input: seq<Byte>, s: State)
    requires s.counters.bytenum < |input|
    requires Decode(cfg, input, s.counters.bytenum).verdict == Pass
    ensures var p, a, t := s.counters.bytenum, Decode(cfg, input, s.counters.bytenum), Step(cfg, input, s);
      && t.counters.bytenum == p + a.consumed
      && t.counters.charnum == s.counters.charnum + 1
      && t.counters.numErrors == s.counters.numErrors
      && t.log == s.log
      && t.output == s.output + (if cfg.checkOnly then [] else input[p .. p + a.consumed])
  {
  }

  // ---------------------------------------------------------------------
  // One attempt
  // ---------------------------------------------------------------------

  /** `n` copies of byte `b`. */
  function Repeat(b: Byte, n: nat): (r: seq<Byte>)
    ensures |r| == n && forall i :: 0 <= i < n ==> r[i] == b
  {
    seq(n, _ => b)
  }

  /** A byte that cannot start a character is one failed attempt of one
      byte, replaced by one substitute whatever the options say. */
  lemma IllegalLeadByte(cfg: Config, input: seq<Byte>, pos: nat)
    requires pos < |input| && (0x80 <= input[pos] < 0xC0 || 0xFE <= input[pos])
    ensures var a := Decode(cfg, input, pos);
      a.consumed == 1 && a.verdict == Fail(IllegalByte(input[pos]))
      && Replacement(cfg, input, pos, a) == [cfg.substitute]
  {
  }

  /** Repair of a failed attempt: one substitute for the whole attempt, or
      with -m one substitute per byte it consumed. */
  lemma FailureRepair(cfg: Config, input: seq<Byte>, pos: nat)
    requires pos < |input|
    ensures var a := Decode(cfg, input, pos);
      a.verdict.Fail? ==>
        Replacement(cfg, input, pos, a) == Repeat(cfg.substitute, if cfg.perByte then a.consumed else 1)
  {
    var a := Decode(cfg, input, pos);
    if a.verdict.Fail? && cfg.perByte && a.consumed > 1 {
      ConsumedHighBytes(input, pos);
      var r := Replacement(cfg, input, pos, a);
      assert forall i :: 0 <= i < a.consumed ==> r[i] == cfg.substitute by {
        forall i | 0 <= i < a.consumed ensures r[i] == cfg.substitute {
          assert input[pos .. pos + a.consumed][i] == input[pos + i];
        }
      }
    }
  }

  /** Resynchronisation: an attempt cut short by a byte that is not 10xxxxxx
      consumed the lead byte and the continuation bytes before it, and stops
      in front of that byte, which the next attempt reads as its lead byte.
      The diagnostic shows the bytes read, the offending one last. */
  lemma Resync(cfg: Config, input: seq<Byte>, pos: nat)
    requires pos < |input|
    ensures var a := Decode(cfg, input, pos);
      a.verdict.Fail? && a.verdict.fault.NotContinuation? ==>
        && pos + a.consumed < |input|
        && !IsContinuation(input[pos + a.consumed])
        && (forall i :: pos < i < pos + a.consumed ==> IsContinuation(input[i]))
        && a.verdict.fault.seen == input[pos .. pos + a.consumed + 1]
  {
  }

  // ---------------------------------------------------------------------
  // Shortest form
  // ---------------------------------------------------------------------

  /** A continuation byte is determined by its payload. */
  lemma ContinuationFromPayload(b: Byte)
    requires IsContinuation(b)
    ensures b == 0x80 + Payload(b)
  {
  }

  /** Lead bytes are determined by what they announce and carry. */
  lemma ClassifyLeadInjective(x: Byte, y: Byte)
    requires ClassifyLead(x).Lead? && ClassifyLead(x) == ClassifyLead(y)
    ensures x == y
  {
  }

  /** Continuation bytes of a given count are determined, together with the
      lead's bits, by the value they accumulate to. */
  lemma {:induction false} AccumulateInjective(l1: nat, c1: seq<Byte>, l2: nat, c2: seq<Byte>)
    requires |c1| == |c2|
    requires forall i :: 0 <= i < |c1| ==> IsContinuation(c1[i]) && IsContinuation(c2[i])
    requires Accumulate(l1, c1) == Accumulate(l2, c2)
    ensures l1 == l2 && c1 == c2
    decreases |c1|
  {
    if c1 != [] {
      var n := |c1| - 1;
      var h1, h2 := Accumulate(l1, c1[..n]), Accumulate(l2, c2[..n]);
      var p1, p2 := Payload(c1[n]), Payload(c2[n]);
      assert h1 * 64 + p1 == h2 * 64 + p2;
      SplitDigit(h1, p1);
      SplitDigit(h2, p2);
      AccumulateInjective(l1, c1[..n], l2, c2[..n]);
      ContinuationFromPayload(c1[n]);
      ContinuationFromPayload(c2[n]);
      assert c1 == c1[..n] + [c1[n]];
      assert c2 == c2[..n] + [c2[n]];
    }
  }

  /** A value that fits the capacity of `cont` continuation bytes and is not
      overlong, up to U+10FFFF, is encoded by RFC 3629 in exactly
      `cont + 1` bytes. */
  lemma EncodedLength(cont: nat, bits: nat, code: nat)
    requires cont <= 5 && bits < LeadCapacity(cont)
    requires code < (bits + 1) * Pow64(cont)
    requires cont > 0 ==> code > HighestCharInNBytes(cont - 1)
    requires code <= 0x10FFFF
    ensures |Encode(code)| == cont + 1
  {
    HighestCharInNBytesMeaning(cont);
    MulMonotone(bits + 1, LeadCapacity(cont), Pow64(cont));
  }

  /** A lead byte and its continuation bytes that accumulate to a scalar
      value which is not overlong are that value's RFC 3629 encoding: the
      encoding is the only well-formed shortest form. */
  lemma OnlyEncoding(ch: Byte, conts: seq<Byte>, code: nat)
    requires ClassifyLead(ch).Lead? && |conts| == ClassifyLead(ch).contBytes
    requires forall i :: 0 <= i < |conts| ==> IsContinuation(conts[i])
    requires code == Accumulate(ClassifyLead(ch).bits, conts) && code <= 0x10FFFF
    requires |conts| > 0 ==> code > HighestCharInNBytes(|conts| - 1)
    ensures [ch] + conts == Encode(code)
  {
    var bits := ClassifyLead(ch).bits;
    AccumulateBounds(bits, conts);
    EncodedLength(|conts|, bits, code);
    var bs := Encode(code);
    DecodeEncoded(code);
    AccumulateInjective(bits, conts, ClassifyLead(bs[0]).bits, bs[1..]);
    ClassifyLeadInjective(ch, bs[0]);
    assert bs == [bs[0]] + bs[1..];
  }

  /** What an attempt that did not fail read: a lead byte, the continuation
      bytes it announced, all present, and a value that passed the checks. */
  lemma CompleteAttempt(cfg: Config, input: seq<Byte>, pos: nat) returns (conts: seq<Byte>)
    requires pos < |input| && !Decode(cfg, input, pos).verdict.Fail?
    ensures var a, lead := Decode(cfg, input, pos), ClassifyLead(input[pos]);
      && lead.Lead? && |conts| == lead.contBytes && a.consumed == 1 + |conts|
      && input[pos .. pos + a.consumed] == [input[pos]] + conts
      && (forall i :: 0 <= i < |conts| ==> IsContinuation(conts[i]))
      && a.code == Accumulate(lead.bits, conts) && a.code <= 0x10FFFF
      && (cfg.checkOverlong && |conts| > 0 ==> a.code > HighestCharInNBytes(|conts| - 1))
  {
    var sc := ScanAt(input, pos);
    DecodeScan(cfg, input, pos);
    assert sc.fault.None? && Checks(cfg, sc.contBytes, sc.code).None?;
    conts := input[pos + 1 .. pos + sc.consumed];
    LeadAndRest(input, pos, sc.consumed);
  }

  lemma LeadAndRest<T>(input: seq<T>, pos: nat, n: nat)
    requires pos < pos + n <= |input|
    ensures input[pos .. pos + n] == [input[pos]] + input[pos + 1 .. pos + n]
  {
  }

  /** With the overlong check on (the default), every character written as it
      was read, and every character turned into a reference, was read in
      its shortest RFC 3629 form: the bytes consumed are `Encode(code)`. */
  lemma ShortestForm(cfg: Config, input: seq<Byte>, pos: nat)
    requires pos < |input| && cfg.checkOverlong
    ensures var a := Decode(cfg, input, pos);
      !a.verdict.Fail? ==> a.code <= 0x10FFFF && input[pos .. pos + a.consumed] == Encode(a.code)
  {
    if !Decode(cfg, input, pos).verdict.Fail? {
      var conts := CompleteAttempt(cfg, input, pos);
      OnlyEncoding(input[pos], conts, Decode(cfg, input, pos).code);
    }
  }

  // ---------------------------------------------------------------------
  // Well-formed text
  // ---------------------------------------------------------------------

  /** What the options demand of a well-formed character before it is
      written out: a scalar value, in the XML character set checked, not on
      the deny-list. */
  predicate Admitted(cfg: Config, c: nat) {
    ValidUtf8Char(c)
    && (cfg.xml10 ==> ValidXml10Char(c))
    && (cfg.xml11 ==> ValidXml11Char(c))
    && !Denied(cfg.badChars, c)
  }

  /** An admitted character that is also written unchanged: not one the
      XML 1.1 option turns into a reference. */
  predicate Acceptable(cfg: Config, c: nat) {
    Admitted(cfg, c) && !(cfg.xml11Restricted && RestrictedXml11Char(c))
  }

  /** Reading stops only where the continuation bytes stop. */
  lemma {:induction false} ContRunAll(input: seq<Byte>, from: nat, limit: nat)
    requires from + limit <= |input|
    requires forall i :: from <= i < from + limit ==> IsContinuation(input[i])
    ensures ContRun(input, from, limit) == limit
    decreases limit
  {
    if limit > 0 {
      ContRunAll(input, from + 1, limit - 1);
    }
  }

  /** Decoding the RFC 3629 encoding of c, wherever it appears in the input,
      consumes exactly its bytes and yields c; it passes exactly when the
      options accept c, and fails exactly when they do not admit it, on any
      setting of the overlong check. */
  lemma DecodeOfEncoding(cfg: Config, input: seq<Byte>, pos: nat, c: nat)
    requires c <= 0x10FFFF
    requires pos + |Encode(c)| <= |input| && input[pos .. pos + |Encode(c)|] == Encode(c)
    ensures var a := Decode(cfg, input, pos);
      && a.consumed == |Encode(c)| && a.code == c
      && (a.verdict.Pass? <==> Acceptable(cfg, c))
      && (a.verdict.Fail? <==> !Admitted(cfg, c))
  {
    var bs := Encode(c);
    DecodeEncoded(c);
    var cont := |bs| - 1;
    assert input[pos] == bs[0];
    assert forall i :: pos + 1 <= i < pos + 1 + cont ==> IsContinuation(input[i]) by {
      forall i | pos + 1 <= i < pos + 1 + cont ensures IsContinuation(input[i]) {
        assert input[i] == bs[i - pos];
      }
    }
    ContRunAll(input, pos + 1, cont);
    assert input[pos + 1 .. pos + 1 + cont] == bs[1..];
  }

  /** The encoding of a sequence of code points, character after character. */
  function EncodeAll(cs: seq<nat>): (bs: seq<Byte>)
    requires forall i :: 0 <= i < |cs| ==> cs[i] <= 0x10FFFF
  {
    if cs == [] then [] else Encode(cs[0]) + EncodeAll(cs[1..])
  }

  /** Where the encoding of `cs` starts, the encoding of its first code
      point comes first and the encoding of the rest follows. */
  lemma EncodeAllFront(input: seq<Byte>, p: nat, cs: seq<nat>)
    requires forall i :: 0 <= i < |cs| ==> cs[i] <= 0x10FFFF
    requires cs != [] && p <= |input| && input[p..] == EncodeAll(cs)
    ensures p + |Encode(cs[0])| <= |input|
    ensures input[p .. p + |Encode(cs[0])|] == Encode(cs[0])
    ensures input[p + |Encode(cs[0])|..] == EncodeAll(cs[1..])
  {
    var front, rest := Encode(cs[0]), EncodeAll(cs[1..]);
    assert EncodeAll(cs) == front + rest;
    SplitAt(input, p, front, rest);
  }

  /** Where `front + rest` starts, `front` comes first and `rest` follows it. */
  lemma SplitAt<T>(input: seq<T>, p: nat, front: seq<T>, rest: seq<T>)
    requires p <= |input| && input[p..] == front + rest
    ensures p + |front| <= |input|
    ensures input[p .. p + |front|] == front && input[p + |front|..] == rest
  {
    assert input[p .. p + |front|] == (front + rest)[..|front|];
    assert input[p + |front|..] == (front + rest)[|front|..];
  }

  lemma EncodeAllCons(prefix: seq<Byte>, cs: seq<nat>)
    requires forall i :: 0 <= i < |cs| ==> cs[i] <= 0x10FFFF
    requires cs != []
    ensures (prefix + Encode(cs[0])) + EncodeAll(cs[1..]) == prefix + EncodeAll(cs)
  {
    Associative(prefix, Encode(cs[0]), EncodeAll(cs[1..]));
  }

  lemma Associative<T>(a: seq<T>, b: seq<T>, c: seq<T>)
    ensures (a + b) + c == a + (b + c)
  {
  }

  /** One iteration over the encoding of an acceptable character: the state
      it leads to, from which the run continues. */
  lemma AcceptedStep(cfg: Config, input: seq<Byte>, s: State, c: nat) returns (t: State)
    requires c <= 0x10FFFF && Acceptable(cfg, c)
    requires var p := s.counters.bytenum;
      p + |Encode(c)| <= |input| && input[p .. p + |Encode(c)|] == Encode(c)
    ensures t.counters.bytenum == s.counters.bytenum + |Encode(c)|
    ensures t.counters.charnum == s.counters.charnum + 1
    ensures t.counters.numErrors == s.counters.numErrors
    ensures t.log == s.log
    ensures t.output == s.output + (if cfg.checkOnly then [] else Encode(c))
    ensures t == Step(cfg, input, s)
  {
    DecodeOfEncoding(cfg, input, s.counters.bytenum, c);
    PassingStep(cfg, input, s);
    t := Step(cfg, input, s);
  }

  /** From a state positioned at the encoding of acceptable characters, the
      run reads one character per code point, writes the bytes unchanged
      (nothing with -c) and neither counts nor logs anything. */
  lemma {:induction false} PassThroughFrom(cfg: Config, input: seq<Byte>, s: State, cs: seq<nat>)
    requires forall i :: 0 <= i < |cs| ==> cs[i] <= 0x10FFFF && Acceptable(cfg, cs[i])
    requires s.counters.bytenum <= |input| && input[s.counters.bytenum..] == EncodeAll(cs)
    ensures var t := RunFrom(cfg, input, s);
      && t.output == s.output + (if cfg.checkOnly then [] else EncodeAll(cs))
      && t.log == s.log
      && t.counters.numErrors == s.counters.numErrors
      && t.counters.charnum == s.counters.charnum + |cs|
    decreases |cs|
  {
    if cs == [] {
      assert s.counters.bytenum == |input|;
    } else {
      var t := PassStep(cfg, input, s, cs);
      RunFromStep(cfg, input, s);
      PassThroughFrom(cfg, input, t, cs[1..]);
    }
  }

  /** The first iteration over the encoding of acceptable characters reads
      the first of them and leaves the rest of the encoding ahead. */
  lemma PassStep(cfg: Config, input: seq<Byte>, s: State, cs: seq<nat>) returns (t: State)
    requires forall i :: 0 <= i < |cs| ==> cs[i] <= 0x10FFFF && Acceptable(cfg, cs[i])
    requires s.counters.bytenum <= |input| && input[s.counters.bytenum..] == EncodeAll(cs)
    requires cs != []
    ensures t.counters.bytenum <= |input| && input[t.counters.bytenum..] == EncodeAll(cs[1..])
    ensures t.output + (if cfg.checkOnly then [] else EncodeAll(cs[1..]))
         == s.output + (if cfg.checkOnly then [] else EncodeAll(cs))
    ensures t.log == s.log
    ensures t.counters.numErrors == s.counters.numErrors
    ensures t.counters.charnum == s.counters.charnum + 1
    ensures t == Step(cfg, input, s)
  {
    EncodeAllFront(input, s.counters.bytenum, cs);
    t := AcceptedStep(cfg, input, s, cs[0]);
    OutputJoin(cfg.checkOnly, s.output, t.output, cs);
  }

  lemma OutputJoin(checkOnly: bool, before: seq<Byte>, after: seq<Byte>, cs: seq<nat>)
    requires forall i :: 0 <= i < |cs| ==> cs[i] <= 0x10FFFF
    requires cs != [] && after == before + (if checkOnly then [] else Encode(cs[0]))
    ensures after + (if checkOnly then [] else EncodeAll(cs[1..]))
         == before + (if checkOnly then [] else EncodeAll(cs))
  {
    if !checkOnly {
      EncodeAllCons(before, cs);
    }
  }

  /** Pass-through: text made only of acceptable characters, each in its
      RFC 3629 form, is copied to the output byte for byte, with no error
      counted and no message. */
  lemma PassThrough(cfg: Config, cs: seq<nat>)
    requires forall i :: 0 <= i < |cs| ==> cs[i] <= 0x10FFFF && Acceptable(cfg, cs[i])
    ensures var t := Conditioned(cfg, EncodeAll(cs));
      && t.output == (if cfg.checkOnly then [] else EncodeAll(cs))
      && t.log == [] && t.counters.numErrors == 0
      && t.counters.charnum == |cs|
  {
    PassThroughFrom(cfg, EncodeAll(cs), Start, cs);
  }

  // ---------------------------------------------------------------------
  // Line count
  // ---------------------------------------------------------------------

  /** The number of line feeds in `bs`. */
  function NewLines(bs: seq<Byte>): nat {
    if bs == [] then 0 else (if bs[0] == 0x0A then 1 else 0) + NewLines(bs[1..])
  }

  lemma {:induction false} NewLinesAppend(a: seq<Byte>, b: seq<Byte>)
    ensures NewLines(a + b) == NewLines(a) + NewLines(b)
    decreases |a|
  {
    if a != [] {
      assert (a + b)[1..] == a[1..] + b;
      NewLinesAppend(a[1..], b);
    } else {
      assert a + b == b;
    }
  }

  /** Continuation bytes are never line feeds. */
  lemma {:induction false} NoNewLines(bs: seq<Byte>)
    requires forall i :: 0 <= i < |bs| ==> IsContinuation(bs[i])
    ensures NewLines(bs) == 0
    decreases |bs|
  {
    if bs != [] {
      NoNewLines(bs[1..]);
    }
  }

  /** Every byte an attempt consumes after its lead byte is a continuation
      byte. */
  lemma ScanContinuations(input: seq<Byte>, pos: nat)
    requires pos < |input|
    ensures forall i :: pos < i < pos + ScanAt(input, pos).consumed ==> IsContinuation(input[i])
  {
  }

  lemma {:induction false} LinesFrom(cfg: Config, input: seq<Byte>, s: State)
    requires s.counters.bytenum <= |input|
    ensures RunFrom(cfg, input, s).counters.linenum
         == s.counters.linenum + NewLines(input[s.counters.bytenum..])
    decreases |input| - s.counters.bytenum
  {
    var p := s.counters.bytenum;
    if p < |input| {
      StepCounters(cfg, input, s);
      DecodeScan(cfg, input, p);
      ScanContinuations(input, p);
      LineCounters(input, p, ScanAt(input, p).consumed, s.counters.linenum, Step(cfg, input, s).counters);
      RunFromStep(cfg, input, s);
      LinesFrom(cfg, input, Step(cfg, input, s));
    } else {
      assert input[p..] == [];
    }
  }

  /** One iteration moves the line feeds of the bytes it consumes into the
      line counter. */
  lemma LineCounters(input: seq<Byte>, p: nat, n: nat, linenum: nat, t: Counters)
    requires 1 <= n && p + n <= |input|
    requires forall i :: p < i < p + n ==> IsContinuation(input[i])
    requires t.bytenum == p + n && t.linenum == linenum + (if input[p] == 0x0A then 1 else 0)
    ensures t.linenum + NewLines(input[t.bytenum..]) == linenum + NewLines(input[p..])
  {
    LinesOfRest(input, p, n);
  }

  /** Of a lead byte and the continuation bytes after it, only the lead byte
      can be a line feed, and line 213 tests only the lead byte. */
  lemma LinesOfRest(input: seq<Byte>, p: nat, n: nat)
    requires 1 <= n && p + n <= |input|
    requires forall i :: p < i < p + n ==> IsContinuation(input[i])
    ensures NewLines(input[p..]) == (if input[p] == 0x0A then 1 else 0) + NewLines(input[p + n..])
  {
    var rest, after := input[p + 1 .. p + n], input[p + n..];
    assert forall i :: 0 <= i < |rest| ==> IsContinuation(rest[i]) by {
      forall i | 0 <= i < |rest| ensures IsContinuation(rest[i]) {
        assert rest[i] == input[p + 1 + i];
      }
    }
    NoNewLines(rest);
    NewLinesAppend(rest, after);
    assert input[p..] == [input[p]] + (rest + after);
    assert input[p..][1..] == rest + after;
  }

  /** Line counting: although only lead bytes are tested for '\n', the final
      line number is one more than the number of line feeds in the input,
      since a line feed is never consumed as a continuation byte (a pushed
      back one is re-read as a lead byte). */
  lemma LineCount(cfg: Config, input: seq<Byte>)
    ensures Conditioned(cfg, input).counters.linenum == 1 + NewLines(input)
  {
    LinesFrom(cfg, input, Start);
    assert input[0..] == input;
  }

  // ---------------------------------------------------------------------
  // Counters, output and messages over a run
  // ---------------------------------------------------------------------

  /** One iteration spelled out: the attempt at the current position and
      the state after it, from which the run continues. */
  lemma Iteration(cfg: Config, input: seq<Byte>, s: State) returns (a: Attempt, t: State)
    requires s.counters.bytenum < |input|
    ensures a == Decode(cfg, input, s.counters.bytenum)
    ensures t.counters.bytenum == s.counters.bytenum + a.consumed
    ensures t.counters.charnum == s.counters.charnum + 1
    ensures t.counters.numErrors == s.counters.numErrors + (if a.verdict.Fail? then 1 else 0)
    ensures t.output == s.output + (if cfg.checkOnly then [] else Replacement(cfg, input, s.counters.bytenum, a))
    ensures t.log == s.log + (if !a.verdict.Pass? && Reported(cfg, t.counters.numErrors)
                              then [Diagnostic(t.counters.linenum, t.counters.charnum, t.counters.bytenum, a.verdict)]
                              else [])
    ensures RunFrom(cfg, input, s) == RunFrom(cfg, input, t)
  {
    a := Decode(cfg, input, s.counters.bytenum);
    t := Step(cfg, input, s);
  }

  /** The most bytes `n` input bytes can turn into: five per byte with the
      reference expansion of -X 1.1 (`&#xHH` for a one-byte restricted
      character), otherwise one per byte. */
  function MaxOutput(cfg: Config, n: nat): nat {
    if cfg.xml11Restricted then 5 * n else n
  }

  /** What one attempt writes is at most `MaxOutput` of the bytes it read. */
  lemma ReplacementLength(cfg: Config, input: seq<Byte>, pos: nat)
    requires pos < |input|
    ensures var a := Decode(cfg, input, pos);
      |Replacement(cfg, input, pos, a)| <= MaxOutput(cfg, a.consumed)
  {
    var a := Decode(cfg, input, pos);
    var r := Replacement(cfg, input, pos, a);
    match a.verdict
    case Pass =>
      assert |r| == a.consumed;
    case Fail(_) =>
      assert |r| <= a.consumed;
    case Restricted(code) =>
      assert cfg.xml11Restricted && RestrictedXml11Char(code);
      HexDigitsLength(code);
      assert |r| <= 5;
  }

  /** Over the rest of a run: errors never exceed characters, characters
      never exceed bytes, and there is at most one message per character. */
  lemma {:induction false} CountersFrom(cfg: Config, input: seq<Byte>, s: State)
    requires s.counters.bytenum <= |input|
    ensures var t := RunFrom(cfg, input, s);
      var chars := t.counters.charnum - s.counters.charnum;
      && s.counters.numErrors <= t.counters.numErrors
      && t.counters.numErrors - s.counters.numErrors <= chars <= |input| - s.counters.bytenum
      && |s.log| <= |t.log| <= |s.log| + chars
    decreases |input| - s.counters.bytenum
  {
    if s.counters.bytenum < |input| {
      var a, t := Iteration(cfg, input, s);
      CountersFrom(cfg, input, t);
    }
  }

  /** Over the rest of a run, output and messages are only appended to. */
  lemma {:induction false} AppendOnlyFrom(cfg: Config, input: seq<Byte>, s: State)
    requires s.counters.bytenum <= |input|
    ensures s.log <= RunFrom(cfg, input, s).log
    ensures s.output <= RunFrom(cfg, input, s).output
    decreases |input| - s.counters.bytenum
  {
    if s.counters.bytenum < |input| {
      var a, t := Iteration(cfg, input, s);
      AppendOnlyFrom(cfg, input, t);
      PrefixOfExtension(s.log, t.log, RunFrom(cfg, input, t).log);
      PrefixOfExtension(s.output, t.output, RunFrom(cfg, input, t).output);
    }
  }

  lemma PrefixOfExtension<T>(a: seq<T>, b: seq<T>, c: seq<T>)
    requires a <= b && b <= c
    ensures a <= c
  {
    assert c[..|a|] == c[..|b|][..|a|];
  }

  /** With -c nothing is written. */
  lemma {:induction false} CheckOnlyFrom(cfg: Config, input: seq<Byte>, s: State)
    requires s.counters.bytenum <= |input| && cfg.checkOnly
    ensures RunFrom(cfg, input, s).output == s.output
    decreases |input| - s.counters.bytenum
  {
    if s.counters.bytenum < |input| {
      var a, t := Iteration(cfg, input, s);
      CheckOnlyFrom(cfg, input, t);
    }
  }

  /** Over the rest of a run the output grows by at most `MaxOutput` of the
      bytes left to read. */
  lemma {:induction false} OutputFrom(cfg: Config, input: seq<Byte>, s: State)
    requires s.counters.bytenum <= |input|
    ensures |RunFrom(cfg, input, s).output| <= |s.output| + MaxOutput(cfg, |input| - s.counters.bytenum)
    decreases |input| - s.counters.bytenum
  {
    var p := s.counters.bytenum;
    if p < |input| {
      var a, t := Iteration(cfg, input, s);
      ReplacementLength(cfg, input, p);
      OutputFrom(cfg, input, t);
    }
  }

  /** Bounds on a whole run: `numErrors <= charnum <= bytenum == |input|`,
      at most one message per character, at most one output byte per input
      byte (five with -X 1.1), and no output at all with -c. */
  lemma Counts(cfg: Config, input: seq<Byte>)
    ensures var t := Conditioned(cfg, input);
      && t.counters.numErrors <= t.counters.charnum <= t.counters.bytenum == |input|
      && |t.log| <= t.counters.charnum
      && |t.output| <= MaxOutput(cfg, |input|)
      && (cfg.checkOnly ==> t.output == [])
  {
    CountersFrom(cfg, input, Start);
    OutputFrom(cfg, input, Start);
    if cfg.checkOnly {
      CheckOnlyFrom(cfg, input, Start);
    }
  }

  /** Without -c and without the reference expansion of -X 1.1, a run that
      counts no error from some point on copies the rest of the input
      unchanged and logs nothing more. */
  lemma {:induction false} UnchangedFrom(cfg: Config, input: seq<Byte>, s: State)
    requires s.counters.bytenum <= |input| && !cfg.checkOnly && !cfg.xml11Restricted
    requires RunFrom(cfg, input, s).counters.numErrors == s.counters.numErrors
    ensures RunFrom(cfg, input, s).output == s.output + input[s.counters.bytenum..]
    ensures RunFrom(cfg, input, s).log == s.log
    decreases |input| - s.counters.bytenum
  {
    var p := s.counters.bytenum;
    if p < |input| {
      var t := Step(cfg, input, s);
      RunFromStep(cfg, input, s);
      CountersFrom(cfg, input, t);
      QuietStep(cfg, input, s);
      UnchangedFrom(cfg, input, t);
      AppendSlices(s.output, input, p, t.counters.bytenum);
    } else {
      assert input[p..] == [];
    }
  }

  /** An iteration that counts no failure, without -c and without the
      reference expansion, copies the bytes it read and logs nothing. */
  lemma QuietStep(cfg: Config, input: seq<Byte>, s: State)
    requires s.counters.bytenum < |input| && !cfg.checkOnly && !cfg.xml11Restricted
    requires Step(cfg, input, s).counters.numErrors == s.counters.numErrors
    ensures var t := Step(cfg, input, s);
      && t.output == s.output + input[s.counters.bytenum .. t.counters.bytenum]
      && t.log == s.log
  {
  }

  lemma AppendSlices(prefix: seq<Byte>, input: seq<Byte>, p: nat, q: nat)
    requires p <= q <= |input|
    ensures (prefix + input[p .. q]) + input[q..] == prefix + input[p..]
  {
    assert input[p..] == input[p .. q] + input[q..];
  }

  /** A run without -c and without reference expansion that counts no error
      writes its input unchanged and prints no message. */
  lemma NoErrorNoChange(cfg: Config, input: seq<Byte>)
    requires !cfg.checkOnly && !cfg.xml11Restricted
    ensures Conditioned(cfg, input).counters.numErrors == 0 ==>
      Conditioned(cfg, input).output == input && Conditioned(cfg, input).log == []
  {
    if Conditioned(cfg, input).counters.numErrors == 0 {
      UnchangedFrom(cfg, input, Start);
      assert input[0..] == input;
    }
  }

  // ---------------------------------------------------------------------
  // Error messages
  // ---------------------------------------------------------------------

  /** The number of failure messages in a log (restricted characters are
      logged too, but are not failures). */
  function FailCount(log: seq<Diagnostic>): nat
    decreases |log|
  {
    if log == [] then 0
    else FailCount(log[..|log| - 1]) + (if log[|log| - 1].verdict.Fail? then 1 else 0)
  }

  /** How many failure messages `n` failures produce: one each with no limit
      (-e 0), at most the limit otherwise, none with -q or a negative limit. */
  function Shown(cfg: Config, n: nat): nat {
    if cfg.quiet then 0
    else if cfg.maxErrors == 0 || n <= cfg.maxErrors then n
    else if cfg.maxErrors < 0 then 0
    else cfg.maxErrors
  }

  lemma {:induction false} MessagesFrom(cfg: Config, input: seq<Byte>, s: State)
    requires s.counters.bytenum <= |input|
    requires FailCount(s.log) == Shown(cfg, s.counters.numErrors)
    ensures var t := RunFrom(cfg, input, s);
      FailCount(t.log) == Shown(cfg, t.counters.numErrors)
    decreases |input| - s.counters.bytenum
  {
    if s.counters.bytenum < |input| {
      var t := Step(cfg, input, s);
      RunFromStep(cfg, input, s);
      MessagesStep(cfg, input, s);
      MessagesFrom(cfg, input, t);
    }
  }

  /** One iteration keeps the number of failure messages equal to `Shown` of
      the failures counted. */
  lemma MessagesStep(cfg: Config, input: seq<Byte>, s: State)
    requires s.counters.bytenum < |input|
    requires FailCount(s.log) == Shown(cfg, s.counters.numErrors)
    ensures var t := Step(cfg, input, s);
      FailCount(t.log) == Shown(cfg, t.counters.numErrors)
  {
    var a, t := Decode(cfg, input, s.counters.bytenum), Step(cfg, input, s);
    if !a.verdict.Pass? && Reported(cfg, t.counters.numErrors) {
      assert t.log[..|t.log| - 1] == s.log;
    } else {
      assert t.log == s.log;
    }
  }

  /** Error accounting: exactly `Shown(cfg, numErrors)` failure messages are
      logged. With a limit that is not negative, and without -q, every failure
      either gets a message or is counted in the closing line `<n> additional
      errors not reported.` A negative limit (such as `-e -1`) silences every
      message, and the closing line then counts more errors than there
      were. */
  lemma ErrorAccounting(cfg: Config, input: seq<Byte>)
    ensures var t := Conditioned(cfg, input);
      var n := t.counters.numErrors;
      var closing := match Summary(cfg, n) case Some(k) => k case None => 0;
      && FailCount(t.log) == Shown(cfg, n)
      && (!cfg.quiet && cfg.maxErrors >= 0 ==> FailCount(t.log) + closing == n)
      && (!cfg.quiet && cfg.maxErrors < 0 ==> FailCount(t.log) == 0 && closing == n - cfg.maxErrors > n)
  {
    MessagesFrom(cfg, input, Start);
  }

  // ---------------------------------------------------------------------
  // The deny-list
  // ---------------------------------------------------------------------

  /** NUL can never be denied: 0 is the list's terminator. */
  lemma NulNeverDenied(list: seq<nat>)
    ensures !Denied(list, 0)
  {
  }

  /** The codes given after a 0 are never looked at: the list ends at its
      first 0. */
  lemma {:induction false} DenyListEndsAtZero(front: seq<nat>, back: seq<nat>, code: nat)
    requires forall i :: 0 <= i < |front| ==> front[i] != 0
    ensures Denied(front + [0] + back, code) <==> code in front
    decreases |front|
  {
    if front == [] {
      assert (front + [0] + back)[0] == 0;
    } else {
      assert (front + [0] + back)[1..] == front[1..] + [0] + back;
      DenyListEndsAtZero(front[1..], back, code);
      assert front == [front[0]] + front[1..];
    }
  }

  // ---------------------------------------------------------------------
  // Particular inputs
  // ---------------------------------------------------------------------

  /** C0 80, the two-byte overlong form of NUL: rejected as overlong by
      default; with -l it is NUL, which only the XML checks reject. */
  lemma OverlongNul(cfg: Config, input: seq<Byte>, pos: nat)
    requires pos + 1 < |input| && input[pos] == 0xC0 && input[pos + 1] == 0x80
    ensures var a := Decode(cfg, input, pos);
      && a.consumed == 2 && a.code == 0
      && (cfg.checkOverlong ==> a.verdict == Fail(Overlong(0)))
      && (!cfg.checkOverlong ==> (a.verdict.Pass? <==> !cfg.xml10 && !cfg.xml11))
  {
    assert ContRun(input, pos + 1, 1) == 1;
    assert Accumulate(0, input[pos + 1 .. pos + 2]) == 0;
  }

  /** ED A0 80 encodes the surrogate U+D800, which no option lets through. */
  lemma SurrogateRejected(cfg: Config, input: seq<Byte>, pos: nat)
    requires pos + 2 < |input| && input[pos .. pos + 3] == [0xED, 0xA0, 0x80]
    ensures Decode(cfg, input, pos) == Attempt(3, 0xD800, Fail(IllegalCode(0xD800)))
  {
    assert input[pos] == 0xED && input[pos + 1] == 0xA0 && input[pos + 2] == 0x80;
    assert ContRun(input, pos + 1, 2) == 2;
    AccumulateTwo(0xD, 0xA0, 0x80);
    assert input[pos + 1 .. pos + 3] == [0xA0, 0x80];
  }

  /** The attempts on 41 C2 41 42 with no options. */
  lemma ResyncExampleAttempts(input: seq<Byte>)
    requires input == [0x41, 0xC2, 0x41, 0x42]
    ensures Decode(DefaultConfig, input, 0) == Attempt(1, 0x41, Pass)
    ensures Decode(DefaultConfig, input, 1) == Attempt(1, 2, Fail(NotContinuation([0xC2, 0x41])))
    ensures Decode(DefaultConfig, input, 2) == Attempt(1, 0x41, Pass)
    ensures Decode(DefaultConfig, input, 3) == Attempt(1, 0x42, Pass)
  {
    assert ContRun(input, 2, 1) == 0;
    assert input[2..2] == [] && input[1..3] == [0xC2, 0x41];
  }

  /** After the failed attempt, the two remaining bytes of 41 C2 41 42 are
      copied. */
  lemma ResyncExampleTail(input: seq<Byte>, d: Diagnostic)
    requires input == [0x41, 0xC2, 0x41, 0x42]
    ensures RunFrom(DefaultConfig, input, State(Counters(2, 2, 1, 1), [0x41, 0x3F], [d]))
         == State(Counters(4, 4, 1, 1), [0x41, 0x3F, 0x41, 0x42], [d])
  {
    var cfg := DefaultConfig;
    ResyncExampleAttempts(input);
    var s2 := State(Counters(2, 2, 1, 1), [0x41, 0x3F], [d]);
    var s3 := State(Counters(3, 3, 1, 1), [0x41, 0x3F, 0x41], [d]);
    var s4 := State(Counters(4, 4, 1, 1), [0x41, 0x3F, 0x41, 0x42], [d]);
    assert input[2..3] == [0x41] && input[3..4] == [0x42];
    NextState(cfg, input, s2, s3, Attempt(1, 0x41, Pass), [0x41]);
    RunFromStep(cfg, input, s2);
    NextState(cfg, input, s3, s4, Attempt(1, 0x42, Pass), [0x42]);
    RunFromStep(cfg, input, s3);
  }

  /** 41 C2 41 42 with no options: the second attempt fails at the second
      `A`, which is pushed back and read again; four bytes out, one error,
      one message at line 1, character 2, byte 2. */
  lemma ResyncExample()
    ensures Conditioned(DefaultConfig, [0x41, 0xC2, 0x41, 0x42])
         == State(Counters(4, 4, 1, 1), [0x41, 0x3F, 0x41, 0x42],
                  [Diagnostic(1, 2, 2, Fail(NotContinuation([0xC2, 0x41])))])
  {
    var input: seq<Byte> := [0x41, 0xC2, 0x41, 0x42];
    var cfg := DefaultConfig;
    var d := Diagnostic(1, 2, 2, Fail(NotContinuation([0xC2, 0x41])));
    ResyncExampleAttempts(input);
    var s1 := State(Counters(1, 1, 1, 0), [0x41], []);
    var s2 := State(Counters(2, 2, 1, 1), [0x41, 0x3F], [d]);
    assert input[0..1] == [0x41];
    NextState(cfg, input, Start, s1, Attempt(1, 0x41, Pass), [0x41]);
    RunFromStep(cfg, input, Start);
    NextState(cfg, input, s1, s2, Attempt(1, 2, Fail(NotContinuation([0xC2, 0x41]))), [0x3F]);
    RunFromStep(cfg, input, s1);
    ResyncExampleTail(input, d);
  }

  /** The control character U+000B under -X 1.1 becomes the reference
      `&#xB` (no `;`): logged, but not counted as an error. */
  lemma RestrictedExample()
    ensures Conditioned(DefaultConfig.(xml11 := true, xml11Restricted := true), [0x0B])
         == State(Counters(1, 1, 1, 0), [0x26, 0x23, 0x78, 0x42], [Diagnostic(1, 1, 1, Restricted(0x0B))])
  {
    var cfg := DefaultConfig.(xml11 := true, xml11Restricted := true);
    var input: seq<Byte> := [0x0B];
    assert Decode(cfg, input, 0) == Attempt(1, 0x0B, Restricted(0x0B));
    assert Ncr(0x0B) == [0x26, 0x23, 0x78, 0x42];
    NextState(cfg, input, Start, State(Counters(1, 1, 1, 0), [0x26, 0x23, 0x78, 0x42], [Diagnostic(1, 1, 1, Restricted(0x0B))]),
              Attempt(1, 0x0B, Restricted(0x0B)), [0x26, 0x23, 0x78, 0x42]);
    RunFromStep(cfg, input, Start);
    RunFromStep(cfg, input, Start);
  }

  /** With `-b 0x41`, "AB" becomes "?B" with one error. */
  lemma DenyListExample()
    ensures Conditioned(DefaultConfig.(badChars := [0x41]), [0x41, 0x42])
         == State(Counters(2, 2, 1, 1), [0x3F, 0x42], [Diagnostic(1, 1, 1, Fail(BadCode(0x41)))])
  {
    var cfg := DefaultConfig.(badChars := [0x41]);
    var input: seq<Byte> := [0x41, 0x42];
    var d := Diagnostic(1, 1, 1, Fail(BadCode(0x41)));
    assert ActiveBadChars([0x41]) == [0x41];
    assert Decode(cfg, input, 0) == Attempt(1, 0x41, Fail(BadCode(0x41)));
    assert Decode(cfg, input, 1) == Attempt(1, 0x42, Pass);
    assert input[1..2] == [0x42];
    var s1 := State(Counters(1, 1, 1, 1), [0x3F], [d]);
    NextState(cfg, input, Start, s1, Attempt(1, 0x41, Fail(BadCode(0x41))), [0x3F]);
    RunFromStep(cfg, input, Start);
    NextState(cfg, input, s1, State(Counters(2, 2, 1, 1), [0x3F, 0x42], [d]), Attempt(1, 0x42, Pass), [0x42]);
    RunFromStep(cfg, input, s1);
  }

  /** The attempts on E2 82 41, with or without -m. */
  lemma PerByteExampleAttempts(cfg: Config, input: seq<Byte>)
    requires cfg == DefaultConfig.(perByte := cfg.perByte) && input == [0xE2, 0x82, 0x41]
    ensures var f := Fail(NotContinuation([0xE2, 0x82, 0x41]));
      && Decode(cfg, input, 0) == Attempt(2, 130, f)
      && Replacement(cfg, input, 0, Attempt(2, 130, f)) == (if cfg.perByte then [0x3F, 0x3F] else [0x3F])
      && Decode(cfg, input, 2) == Attempt(1, 0x41, Pass)
  {
    assert ContRun(input, 2, 1) == 0;
    assert ContRun(input, 1, 2) == 1;
    assert input[0..3] == [0xE2, 0x82, 0x41] && input[0..2] == [0xE2, 0x82] && input[2..3] == [0x41];
    assert input[1..2] == [0x82];
    AccumulateOne(2, 0x82);
    assert ScanAt(input, 0) == Scan(2, 2, 130, Some(NotContinuation([0xE2, 0x82, 0x41])));
  }

  /** E2 82 41: a three-byte lead cut short after one continuation byte.
      The two bytes read become one `?`, or two with -m; the `A` is read
      again and copied. */
  lemma PerByteExample(perByte: bool)
    ensures var d := Diagnostic(1, 1, 2, Fail(NotContinuation([0xE2, 0x82, 0x41])));
      Conditioned(DefaultConfig.(perByte := perByte), [0xE2, 0x82, 0x41])
      == State(Counters(3, 2, 1, 1), (if perByte then [0x3F, 0x3F] else [0x3F]) + [0x41], [d])
  {
    var cfg := DefaultConfig.(perByte := perByte);
    var input: seq<Byte> := [0xE2, 0x82, 0x41];
    var f := Fail(NotContinuation([0xE2, 0x82, 0x41]));
    var d := Diagnostic(1, 1, 2, f);
    var out1: seq<Byte> := if perByte then [0x3F, 0x3F] else [0x3F];
    PerByteExampleAttempts(cfg, input);
    assert input[2..3] == [0x41];
    var s1 := State(Counters(2, 1, 1, 1), out1, [d]);
    NextState(cfg, input, Start, s1, Attempt(2, 130, f), out1);
    RunFromStep(cfg, input, Start);
    NextState(cfg, input, s1, State(Counters(3, 2, 1, 1), out1 + [0x41], [d]), Attempt(1, 0x41, Pass), [0x41]);
    RunFromStep(cfg, input, s1);
  }
}
