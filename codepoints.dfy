/** Code-point classifiers of utf8conditioner: pure range tests on an unsigned
    code point. A code point is a `nat`; the C functions take an
    `unsigned int`, and every value the conditioner hands them is below 2^31. */
module CodePoints {

  /** `validUTF8Char`: a Unicode scalar value, i.e. at most U+10FFFF and not a
      UTF-16 surrogate (section 3 of RFC 3629). */
  predicate ValidUtf8Char(c: nat) {
    (c < 0xD800 || c > 0xDFFF) && c <= 0x10FFFF
  }

  /** `validXML1_0Char`: production [2] Char of section 2.2 of XML 1.0. */
  predicate ValidXml10Char(c: nat) {
    c == 0x09 || c == 0x0A || c == 0x0D ||
    (0x20 <= c <= 0xD7FF) ||
    (0xE000 <= c <= 0xFFFD) ||
    (0x10000 <= c <= 0x10FFFF)
  }

  /** `validXML1_1Char`: production [2] Char of section 2.2 of XML 1.1. */
  predicate ValidXml11Char(c: nat) {
    (0x1 <= c <= 0xD7FF) ||
    (0xE000 <= c <= 0xFFFD) ||
    (0x10000 <= c <= 0x10FFFF)
  }

  /** `restrictedXML1_1Char`: production [2a] RestrictedChar of section 2.2 of XML 1.1. */
  predicate RestrictedXml11Char(c: nat) {
    (0x1 <= c <= 0x8) ||
    (0xB <= c <= 0xC) ||
    (0xE <= c <= 0x1F) ||
    (0x7F <= c <= 0x84) ||
    (0x86 <= c <= 0xBF)
  }

  /** Scalar values are exactly the code points up to U+10FFFF outside the
      surrogate block U+D800..U+DFFF. */
  lemma ScalarValues(c: nat)
    ensures ValidUtf8Char(c) <==> c <= 0x10FFFF && !(0xD800 <= c <= 0xDFFF)
  {
  }

  /** Every character XML 1.0 admits, XML 1.1 admits too. */
  lemma Xml10WithinXml11(c: nat)
    ensures ValidXml10Char(c) ==> ValidXml11Char(c)
  {
  }

  /** Every XML 1.1 character (hence every XML 1.0 character) is a scalar value,
      so the XML checks never reject anything the scalar check let through
      for being a surrogate or out of range. */
  lemma XmlCharsAreScalarValues(c: nat)
    ensures ValidXml10Char(c) ==> ValidUtf8Char(c)
    ensures ValidXml11Char(c) ==> ValidUtf8Char(c)
  {
  }

  /** Every restricted character is an XML 1.1 character. */
  lemma RestrictedWithinXml11(c: nat)
    ensures RestrictedXml11Char(c) ==> ValidXml11Char(c)
  {
  }

  /** What XML 1.1 adds to XML 1.0 is exactly the C0 controls other than
      NUL, tab, line feed and carriage return, all of which are restricted.
      NUL, a scalar value, is in neither set. */
  lemma Xml11Extension(c: nat)
    ensures ValidXml11Char(c) && !ValidXml10Char(c)
        <==> RestrictedXml11Char(c) && c < 0x20
    ensures ValidUtf8Char(0) && !ValidXml10Char(0) && !ValidXml11Char(0)
  {
  }

  /** The restricted characters that XML 1.0 also admits are DEL and the C1
      controls, except NEL (U+0085), together with U+00A0..U+00BF. */
  lemma RestrictedAlsoXml10(c: nat)
    ensures RestrictedXml11Char(c) && ValidXml10Char(c)
        <==> 0x7F <= c <= 0xBF && c != 0x85
  {
  }
}
