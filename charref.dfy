/** The hexadecimal character reference that utf8conditioner writes in place
    of an XML 1.1 restricted character: the text `snprintf(buf, …, "&#x%X",
    unicode)` produces (utf8conditioner.c:328). */
module CharRef {
  import opened Utf8

  /** An upper-case hexadecimal digit as `%X` prints it: '0'..'9', 'A'..'F'. */
  predicate IsHexDigit(b: Byte) {
    0x30 <= b <= 0x39 || 0x41 <= b <= 0x46
  }

  function HexDigit(d: nat): (b: Byte)
    requires d < 16
    ensures IsHexDigit(b)
  {
    if d < 10 then 0x30 + d else 0x41 + (d - 10)
  }

  function DigitValue(b: Byte): (d: nat)
    requires IsHexDigit(b)
    ensures d < 16 && HexDigit(d) == b
  {
    if b <= 0x39 then b - 0x30 else b - 0x41 + 10
  }

  /** `%X` of n: upper-case hexadecimal without leading zeros ("0" for 0). */
  function HexDigits(n: nat): (ds: seq<Byte>)
    ensures |ds| >= 1
    ensures forall i :: 0 <= i < |ds| ==> IsHexDigit(ds[i])
    ensures n > 0 ==> ds[0] != 0x30
    decreases n
  {
    if n < 16 then [HexDigit(n)] else HexDigits(n / 16) + [HexDigit(n % 16)]
  }

  /** The number a string of hexadecimal digits denotes. */
  function HexValue(ds: seq<Byte>): nat
    requires forall i :: 0 <= i < |ds| ==> IsHexDigit(ds[i])
    decreases |ds|
  {
    if ds == [] then 0 else HexValue(ds[..|ds| - 1]) * 16 + DigitValue(ds[|ds| - 1])
  }

  /** Reading the digits back gives the number printed. */
  lemma {:induction false} HexRoundTrip(n: nat)
    ensures HexValue(HexDigits(n)) == n
    decreases n
  {
    var ds := HexDigits(n);
    if n >= 16 {
      HexRoundTrip(n / 16);
      assert ds[..|ds| - 1] == HexDigits(n / 16);
    } else {
      assert ds[..0] == [];
    }
  }

  /** One digit below 16, two digits from 16 to 255. */
  lemma HexDigitsLength(n: nat)
    requires n < 0x100
    ensures |HexDigits(n)| == (if n < 16 then 1 else 2)
  {
  }

  /** The reference text `&#x` followed by the digits. As in the source, no
      terminating `;` follows, although production [66] CharRef of section
      4.1 of XML 1.0 requires one: the emitted text is not a well-formed
      character reference. */
  function Ncr(code: nat): (text: seq<Byte>)
    ensures |text| >= 4 && text[..3] == [0x26, 0x23, 0x78]
    ensures text[3..] == HexDigits(code)
    ensures 0x3B !in text
  {
    [0x26, 0x23, 0x78] + HexDigits(code)
  }
}
