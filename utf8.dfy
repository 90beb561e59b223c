/** The byte-level vocabulary of UTF-8 decoding used by utf8conditioner:
    lead-byte classification (including the 5- and 6-byte forms of RFC 2279),
    continuation bytes, the 6-bit accumulation, the overlong table, and an
    RFC 3629 encoder that serves as the decoder's partner. */
module Utf8 {

  /** An octet as returned by `getc` (EOF is modelled by the end of the input). */
  type Byte = b: int | 0 <= b < 0x100

  function Pow64(n: nat): (p: nat)
    ensures p >= 1
  {
    if n == 0 then 1 else 64 * Pow64(n - 1)
  }

  /** What a lead byte announces: how many continuation bytes follow and the
      code-point bits the lead byte itself carries. */
  datatype Lead = Lead(contBytes: nat, bits: nat) | IllegalLead

  /** Number of distinct values the lead byte of an (n+1)-byte form can carry:
      7 bits for ASCII, 6 - n bits otherwise. */
  function LeadCapacity(n: nat): nat
    requires n <= 5
  {
    if n == 0 then 0x80 else [0, 0x20, 0x10, 0x08, 0x04, 0x02][n]
  }

  /** Lead-byte classification by its high bits (utf8conditioner.c:216-242):
      0xxxxxxx, 110xxxxx, 1110xxxx, 11110xxx, 111110xx, 1111110x announce
      0..5 continuation bytes and carry their low 7, 5, 4, 3, 2, 1 bits;
      10xxxxxx, 0xFE and 0xFF are illegal lead bytes. */
  function ClassifyLead(ch: Byte): Lead
  {
    if ch < 0x80 then Lead(0, ch)
    else if ch < 0xC0 then IllegalLead
    else if ch < 0xE0 then Lead(1, ch - 0xC0)
    else if ch < 0xF0 then Lead(2, ch - 0xE0)
    else if ch < 0xF8 then Lead(3, ch - 0xF0)
    else if ch < 0xFC then Lead(4, ch - 0xF8)
    else if ch < 0xFE then Lead(5, ch - 0xFC)
    else IllegalLead
  }

  /** The illegal lead bytes are the continuation bytes, 0xFE and 0xFF; a
      legal one announces at most five continuation bytes and carries fewer
      values than `LeadCapacity`. */
  lemma LeadRange(ch: Byte)
    ensures ClassifyLead(ch).IllegalLead? <==> (0x80 <= ch < 0xC0 || 0xFE <= ch)
    ensures ClassifyLead(ch).Lead? ==>
      ClassifyLead(ch).contBytes <= 5 && ClassifyLead(ch).bits < LeadCapacity(ClassifyLead(ch).contBytes)
  {
  }

  /** The classification is the source's chain of mask tests, with the
      lead byte's bits extracted by the matching mask. The octet is taken
      as an 8-bit vector `x`, whose value `x as int` ranges over every
      byte. */
  lemma LeadMasks(x: bv8)
    ensures ClassifyLead(x as int) ==
      if x & 0x80 == 0 then Lead(0, x as int)
      else if x & 0xE0 == 0xC0 then Lead(1, (x & 0x1F) as int)
      else if x & 0xF0 == 0xE0 then Lead(2, (x & 0x0F) as int)
      else if x & 0xF8 == 0xF0 then Lead(3, (x & 0x07) as int)
      else if x & 0xFC == 0xF8 then Lead(4, (x & 0x03) as int)
      else if x & 0xFE == 0xFC then Lead(5, (x & 0x01) as int)
      else IllegalLead
  {
    LeadBits(x);
  }

  lemma LeadBits(x: bv8)
    ensures (x & 0x80 == 0) <==> x as int < 0x80
    ensures (x & 0xE0 == 0xC0) <==> 0xC0 <= x as int < 0xE0
    ensures (x & 0xF0 == 0xE0) <==> 0xE0 <= x as int < 0xF0
    ensures (x & 0xF8 == 0xF0) <==> 0xF0 <= x as int < 0xF8
    ensures (x & 0xFC == 0xF8) <==> 0xF8 <= x as int < 0xFC
    ensures (x & 0xFE == 0xFC) <==> 0xFC <= x as int < 0xFE
    ensures 0xC0 <= x as int < 0xE0 ==> (x & 0x1F) as int == x as int - 0xC0
    ensures 0xE0 <= x as int < 0xF0 ==> (x & 0x0F) as int == x as int - 0xE0
    ensures 0xF0 <= x as int < 0xF8 ==> (x & 0x07) as int == x as int - 0xF0
    ensures 0xF8 <= x as int < 0xFC ==> (x & 0x03) as int == x as int - 0xF8
    ensures 0xFC <= x as int < 0xFE ==> (x & 0x01) as int == x as int - 0xFC
  {
  }

  /** A continuation byte, 10xxxxxx (utf8conditioner.c:249). */
  predicate IsContinuation(b: Byte) {
    0x80 <= b < 0xC0
  }

  /** The six payload bits of a byte (utf8conditioner.c:263). */
  function Payload(b: Byte): Byte {
    b % 64
  }

  /** The source tests and extracts with masks: `(ch & 0xC0) != 0x80` rejects
      a continuation byte and `ch & 0x3F` is its payload (octet `x` as an
      8-bit vector). */
  lemma ContinuationMasks(x: bv8)
    ensures IsContinuation(x as int) <==> (x & 0xC0 == 0x80)
    ensures Payload(x as int) == (x & 0x3F) as int
  {
  }

  /** The accumulator `unicode` after reading `conts` behind a lead byte that
      carried `lead`: `unicode = (unicode << 6) + (ch & 0x3F)` per byte
      (utf8conditioner.c:263). */
  function Accumulate(lead: nat, conts: seq<Byte>): nat
    decreases |conts|
  {
    if conts == [] then lead
    else Accumulate(lead, conts[..|conts| - 1]) * 64 + Payload(conts[|conts| - 1])
  }

  /** The lead byte's bits end up as the top digits of the accumulated value:
      each continuation byte appends one base-64 digit. */
  lemma {:induction false} AccumulateBounds(lead: nat, conts: seq<Byte>)
    ensures lead * Pow64(|conts|) <= Accumulate(lead, conts) < (lead + 1) * Pow64(|conts|)
    decreases |conts|
  {
    if conts != [] {
      var n := |conts|;
      var init := conts[..n - 1];
      var u' := Accumulate(lead, init);
      AccumulateBounds(lead, init);
      var p := Pow64(n - 1);
      assert Pow64(n) == 64 * p;
      MulMonotone(lead * p, u', 64);
      MulMonotone(u' + 1, (lead + 1) * p, 64);
      assert lead * p * 64 == lead * Pow64(n);
      assert (lead + 1) * p * 64 == (lead + 1) * Pow64(n);
      assert (u' + 1) * 64 == u' * 64 + 64;
    }
  }

  /** The table `highestCharInNBytes` (utf8conditioner.c:97-106): entry n is
      the highest code point an (n+1)-byte form can carry. */
  function HighestCharInNBytes(n: nat): nat
    requires n <= 5
  {
    [0x7F, 0x7FF, 0xFFFF, 0x1FFFFF, 0x3FFFFFF, 0x7FFFFFFF][n]
  }

  /** Each table entry is one less than the number of values an (n+1)-byte
      form can carry: the lead byte's capacity times 64 per continuation byte. */
  lemma HighestCharInNBytesMeaning(n: nat)
    requires n <= 5
    ensures HighestCharInNBytes(n) + 1 == LeadCapacity(n) * Pow64(n)
  {
    assert Pow64(1) == 64;
    assert Pow64(2) == 4096;
    assert Pow64(3) == 262144;
    assert Pow64(4) == 16777216;
    assert Pow64(5) == 1073741824;
  }

  /** A complete sequence decodes to at most the table entry for its length,
      hence below 2^31: the 32-bit `unsigned int` accumulator never wraps. */
  lemma {:induction false} DecodedWithinTable(ch: Byte, conts: seq<Byte>)
    requires ClassifyLead(ch).Lead? && |conts| <= ClassifyLead(ch).contBytes
    ensures Accumulate(ClassifyLead(ch).bits, conts) <= HighestCharInNBytes(ClassifyLead(ch).contBytes)
    ensures Accumulate(ClassifyLead(ch).bits, conts) <= 0x7FFFFFFF
  {
    var n := ClassifyLead(ch).contBytes;
    var bits := ClassifyLead(ch).bits;
    HighestCharInNBytesMeaning(n);
    AccumulateBounds(bits, conts);
    PowMonotone(|conts|, n);
    calc {
      Accumulate(bits, conts) + 1;
    <= (bits + 1) * Pow64(|conts|);
    <= { MulMonotone(bits + 1, LeadCapacity(n), Pow64(|conts|)); }
      LeadCapacity(n) * Pow64(|conts|);
    <= { MulMonotone(Pow64(|conts|), Pow64(n), LeadCapacity(n)); }
      LeadCapacity(n) * Pow64(n);
    }
  }

  lemma MulMonotone(a: nat, b: nat, c: nat)
    requires a <= b
    ensures a * c <= b * c && c * a <= c * b
  {
  }

  lemma {:induction false} PowMonotone(m: nat, n: nat)
    requires m <= n
    ensures Pow64(m) <= Pow64(n)
    decreases n
  {
    if m < n {
      PowMonotone(m, n - 1);
    }
  }

  /** RFC 3629 encoding of a code point up to U+10FFFF in 1 to 4 bytes. */
  function Encode(c: nat): (bs: seq<Byte>)
    requires c <= 0x10FFFF
  {
    if c <= 0x7F then [c]
    else if c <= 0x7FF then [0xC0 + c / 64, 0x80 + c % 64]
    else if c <= 0xFFFF then [0xE0 + c / 4096, 0x80 + c / 64 % 64, 0x80 + c % 64]
    else [0xF0 + c / 262144, 0x80 + c / 4096 % 64, 0x80 + c / 64 % 64, 0x80 + c % 64]
  }

  /** One byte up to U+007F, two up to U+07FF, three up to U+FFFF, four
      beyond (the table of section 3 of RFC 3629). */
  lemma EncodeLength(c: nat)
    requires c <= 0x10FFFF
    ensures 1 <= |Encode(c)| <= 4
    ensures |Encode(c)| == 1 <==> c <= 0x7F
    ensures |Encode(c)| == 2 <==> 0x80 <= c <= 0x7FF
    ensures |Encode(c)| == 3 <==> 0x800 <= c <= 0xFFFF
    ensures |Encode(c)| == 4 <==> 0x10000 <= c
  {
  }

  /** Decoding the encoding of c: the lead byte announces exactly the bytes
      that follow, they are all continuation bytes, they accumulate back to c,
      and the form is the shortest one (c exceeds the table entry of the next
      shorter form, so the overlong check lets it pass). */
  lemma DecodeEncoded(c: nat)
    requires c <= 0x10FFFF
    ensures var bs := Encode(c);
      && ClassifyLead(bs[0]).Lead?
      && ClassifyLead(bs[0]).contBytes == |bs| - 1
      && (forall i :: 1 <= i < |bs| ==> IsContinuation(bs[i]))
      && Accumulate(ClassifyLead(bs[0]).bits, bs[1..]) == c
      && (|bs| > 1 ==> c > HighestCharInNBytes(|bs| - 2))
  {
    if c <= 0x7F {
    } else if c <= 0x7FF {
      DecodeEncoded2(c);
    } else if c <= 0xFFFF {
      DecodeEncoded3(c);
    } else {
      DecodeEncoded4(c);
    }
  }

  lemma DecodeEncoded2(c: nat)
    requires 0x80 <= c <= 0x7FF
    ensures Accumulate(ClassifyLead(Encode(c)[0]).bits, Encode(c)[1..]) == c
  {
    var hi, d0 := c / 64, c % 64;
    assert Encode(c)[1..] == [0x80 + d0];
    assert ClassifyLead(0xC0 + hi).bits == hi;
    AccumulateOne(hi, 0x80 + d0);
  }

  lemma DecodeEncoded3(c: nat)
    requires 0x800 <= c <= 0xFFFF
    ensures Accumulate(ClassifyLead(Encode(c)[0]).bits, Encode(c)[1..]) == c
  {
    var q := c / 64;
    var hi, d1, d0 := q / 64, q % 64, c % 64;
    Groups(c);
    assert Encode(c) == [0xE0 + hi, 0x80 + d1, 0x80 + d0];
    assert ClassifyLead(0xE0 + hi).bits == hi;
    AccumulateTwo(hi, 0x80 + d1, 0x80 + d0);
    Digit(d1);
    Digit(d0);
    assert hi * 64 + d1 == q;
  }

  lemma DecodeEncoded4(c: nat)
    requires 0x10000 <= c <= 0x10FFFF
    ensures Accumulate(ClassifyLead(Encode(c)[0]).bits, Encode(c)[1..]) == c
  {
    var q := c / 64;
    var q2 := q / 64;
    var hi, d2, d1, d0 := q2 / 64, q2 % 64, q % 64, c % 64;
    Groups(c);
    assert Encode(c) == [0xF0 + hi, 0x80 + d2, 0x80 + d1, 0x80 + d0];
    assert ClassifyLead(0xF0 + hi).bits == hi;
    AccumulateThree(hi, 0x80 + d2, 0x80 + d1, 0x80 + d0);
    Digit(d2);
    Digit(d1);
    Digit(d0);
    assert hi * 64 + d2 == q2;
    assert q2 * 64 + d1 == q;
  }

  /** A continuation byte 10xxxxxx carries its low six bits. */
  lemma Digit(d: nat)
    requires d < 64
    ensures (0x80 + d) % 64 == d
  {
  }

  lemma AccumulateOne(lead: nat, x: Byte)
    ensures Accumulate(lead, [x]) == lead * 64 + x % 64
  {
    assert [x][..0] == [];
  }

  lemma AccumulateTwo(lead: nat, x: Byte, y: Byte)
    ensures Accumulate(lead, [x, y]) == (lead * 64 + x % 64) * 64 + y % 64
  {
    assert [x, y][..1] == [x];
    AccumulateOne(lead, x);
  }

  lemma AccumulateThree(lead: nat, x: Byte, y: Byte, z: Byte)
    ensures Accumulate(lead, [x, y, z]) == ((lead * 64 + x % 64) * 64 + y % 64) * 64 + z % 64
  {
    assert [x, y, z][..2] == [x, y];
    AccumulateTwo(lead, x, y);
  }

  /** Peeling 6-bit groups off a code point: dividing by 64 twice is
      dividing by 4096, and so on, and each quotient splits into the next
      one and a 6-bit digit. */
  lemma Groups(c: nat)
    ensures c / 64 / 64 == c / 4096 && c / 4096 / 64 == c / 262144
    ensures c / 64 == c / 4096 * 64 + c / 64 % 64
    ensures c / 4096 == c / 262144 * 64 + c / 4096 % 64
  {
  }

  /** A value written as `h` followed by a 6-bit digit `d` gives back both. */
  lemma SplitDigit(h: nat, d: nat)
    requires d < 64
    ensures (h * 64 + d) / 64 == h && (h * 64 + d) % 64 == d
  {
  }

}
