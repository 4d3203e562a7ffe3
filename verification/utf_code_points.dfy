/**
  Single code points: the bit arithmetic of the hand-written UTF-8 and UTF-16 conversions, and the
  byte grammar of section 4 of RFC 3629 that it is measured against.
 */
module UtfCodePoints {
  type Byte = bv8
  type Unit = bv16
  type CodePoint = bv32

  // ----- UTF-8 to code points, as the decoder does it -----

  /** The lead byte's entry in the table packed into 0xe5000000, two bits a nibble. */
  function LeadByteBits(ch: Byte): bv32 {
    ((0xe500_0000 as bv32 >> (((ch as bv32) >> 3) & 0x1e)) & 3) + 1
  }

  function Utf8CodePointLen(ch: Byte): (len: nat)
    ensures 1 <= len <= 4
  {
    var bits := LeadByteBits(ch);
    if bits == 1 then 1 else if bits == 2 then 2 else if bits == 3 then 3 else 4
  }

  /** Every byte has a length; only the four leading bits count. */
  lemma LeadByteTable(ch: Byte)
    ensures ch < 0xC0 <==> Utf8CodePointLen(ch) == 1
    ensures 0xC0 <= ch < 0xE0 <==> Utf8CodePointLen(ch) == 2
    ensures 0xE0 <= ch < 0xF0 <==> Utf8CodePointLen(ch) == 3
    ensures 0xF0 <= ch <==> Utf8CodePointLen(ch) == 4
  {
  }

  function ShiftAndMask(codePoint: CodePoint, byte: Byte): CodePoint {
    (codePoint << 6) | (0x3F & (byte as CodePoint))
  }

  /** `char` widened to 32 bits: where it is signed, its top bit spreads. */
  function WidenChar(signedChar: bool, ch: Byte): CodePoint {
    if signedChar && ch >= 0x80 then 0xFFFF_FF00 | (ch as CodePoint) else ch as CodePoint
  }

  function Decode2(b0: Byte, b1: Byte): CodePoint {
    ShiftAndMask((b0 as CodePoint) & 0x1f, b1)
  }

  function Decode3(b0: Byte, b1: Byte, b2: Byte): CodePoint {
    ShiftAndMask(ShiftAndMask((b0 as CodePoint) & 0x0f, b1), b2)
  }

  function Decode4(b0: Byte, b1: Byte, b2: Byte, b3: Byte): CodePoint {
    ShiftAndMask(ShiftAndMask(ShiftAndMask((b0 as CodePoint) & 0x07, b1), b2), b3)
  }

  // ----- Code points to UTF-8, as the encoder does it -----

  function Utf32CodePointUtf8Length(c: CodePoint): (len: nat)
    ensures len <= 4
  {
    if c < 0x80 then 1
    else if c < 0x800 then 2
    else if c < 0x1_0000 then (if c < 55296 || c > 0xDFFF then 3 else 0)
    else if c <= 0x10_FFFF then 4
    else 0
  }

  function Shift6(c: CodePoint): CodePoint {
    c >> 6
  }

  lemma ShiftsCompose(c: CodePoint)
    ensures Shift6(Shift6(c)) == c >> 12 && Shift6(Shift6(Shift6(c))) == c >> 18
  {
  }

  function TailByte(c: CodePoint): Byte {
    ((c | 0x80) & 0xBF) as Byte
  }

  /** `(uint8_t)(c | mark)`: only the low eight bits are stored. */
  function LeadByte(c: CodePoint, mark: CodePoint): Byte {
    ((c | mark) & 0xFF) as Byte
  }

  /** The bytes of `c` in a given length: the tail bytes take six bits each from the low end. */
  function EncodeAs(c: CodePoint, len: nat): (bytes: seq<Byte>)
    requires len <= 4
    ensures |bytes| == len
  {
    match len
    case 0 => []
    case 1 => [LeadByte(c, 0)]
    case 2 => [LeadByte(Shift6(c), 0xC0), TailByte(c)]
    case 3 => [LeadByte(Shift6(Shift6(c)), 0xE0), TailByte(Shift6(c)), TailByte(c)]
    case _ => [LeadByte(Shift6(Shift6(Shift6(c))), 0xF0), TailByte(Shift6(Shift6(c))), TailByte(Shift6(c)), TailByte(c)]
  }

  function EncodeCodePoint(c: CodePoint): (bytes: seq<Byte>)
    ensures |bytes| == Utf32CodePointUtf8Length(c)
  {
    EncodeAs(c, Utf32CodePointUtf8Length(c))
  }

  // ----- The grammar of RFC 3629, section 4 -----

  predicate Tail(b: Byte) {
    0x80 <= b <= 0xBF
  }

  predicate Utf8Char2(b0: Byte, b1: Byte) {
    0xC2 <= b0 <= 0xDF && Tail(b1)
  }

  predicate Utf8Char3(b0: Byte, b1: Byte, b2: Byte) {
    && Tail(b2)
    && (|| (b0 == 0xE0 && 0xA0 <= b1 <= 0xBF)
        || (0xE1 <= b0 <= 0xEC && Tail(b1))
        || (b0 == 0xED && 0x80 <= b1 <= 0x9F)
        || (0xEE <= b0 <= 0xEF && Tail(b1)))
  }

  predicate Utf8Char4(b0: Byte, b1: Byte, b2: Byte, b3: Byte) {
    && Tail(b2) && Tail(b3)
    && (|| (b0 == 0xF0 && 0x90 <= b1 <= 0xBF)
        || (0xF1 <= b0 <= 0xF3 && Tail(b1))
        || (b0 == 0xF4 && 0x80 <= b1 <= 0x8F))
  }

  /** How many bytes of `b` its first UTF-8 character takes, 0 when there is none. */
  function CharLength(b: seq<Byte>): (n: nat)
    ensures n <= |b| && n <= 4
  {
    if |b| >= 1 && b[0] <= 0x7F then 1
    else if |b| >= 2 && Utf8Char2(b[0], b[1]) then 2
    else if |b| >= 3 && Utf8Char3(b[0], b[1], b[2]) then 3
    else if |b| >= 4 && Utf8Char4(b[0], b[1], b[2], b[3]) then 4
    else 0
  }

  // ----- Encoding then decoding, and back, one code point at a time -----

  lemma EncodeThenDecode2(c: CodePoint)
    requires 0x80 <= c < 0x800
    ensures Utf8Char2(LeadByte(c >> 6, 0xC0), TailByte(c))
    ensures Decode2(LeadByte(c >> 6, 0xC0), TailByte(c)) == c
  {
  }

  lemma Encoded3Decodes(c: CodePoint)
    requires c < 0x1_0000
    ensures Decode3(LeadByte(c >> 12, 0xE0), TailByte(c >> 6), TailByte(c)) == c
  {
  }

  lemma EncodeThenDecode3(c: CodePoint)
    requires 0x800 <= c < 0x1_0000 && !(0xD800 <= c <= 0xDFFF)
    ensures Utf8Char3(LeadByte(c >> 12, 0xE0), TailByte(c >> 6), TailByte(c))
    ensures Decode3(LeadByte(c >> 12, 0xE0), TailByte(c >> 6), TailByte(c)) == c
  {
    Encoded3Decodes(c);
  }

  lemma Encoded4Decodes(c: CodePoint)
    requires c < 0x20_0000
    ensures Decode4(LeadByte(c >> 18, 0xF0), TailByte(c >> 12), TailByte(c >> 6), TailByte(c)) == c
  {
  }

  lemma EncodeThenDecode4(c: CodePoint)
    requires 0x1_0000 <= c <= 0x10_FFFF
    ensures Utf8Char4(LeadByte(c >> 18, 0xF0), TailByte(c >> 12), TailByte(c >> 6), TailByte(c))
    ensures Decode4(LeadByte(c >> 18, 0xF0), TailByte(c >> 12), TailByte(c >> 6), TailByte(c)) == c
  {
    Encoded4Decodes(c);
  }

  lemma DecodeThenEncode2(b0: Byte, b1: Byte)
    requires Utf8Char2(b0, b1)
    ensures 0x80 <= Decode2(b0, b1) < 0x800
    ensures LeadByte(Decode2(b0, b1) >> 6, 0xC0) == b0 && TailByte(Decode2(b0, b1)) == b1
  {
  }

  lemma Decode3InRange(b0: Byte, b1: Byte, b2: Byte)
    requires Utf8Char3(b0, b1, b2)
    ensures 0x800 <= Decode3(b0, b1, b2) < 0x1_0000
    ensures !(0xD800 <= Decode3(b0, b1, b2) <= 0xDFFF)
  {
  }

  lemma DecodeThenEncode3(b0: Byte, b1: Byte, b2: Byte)
    requires 0xE0 <= b0 <= 0xEF && Tail(b1) && Tail(b2)
    ensures LeadByte(Decode3(b0, b1, b2) >> 12, 0xE0) == b0
    ensures TailByte(Decode3(b0, b1, b2) >> 6) == b1 && TailByte(Decode3(b0, b1, b2)) == b2
  {
  }

  lemma Decode4InRange(b0: Byte, b1: Byte, b2: Byte, b3: Byte)
    requires Utf8Char4(b0, b1, b2, b3)
    ensures 0x1_0000 <= Decode4(b0, b1, b2, b3) <= 0x10_FFFF
  {
  }

  lemma Decoded4Lead(b0: Byte, b1: Byte, b2: Byte, b3: Byte)
    requires 0xF0 <= b0 <= 0xF7
    ensures LeadByte(Decode4(b0, b1, b2, b3) >> 18, 0xF0) == b0
  {
  }

  lemma Decoded4Tail1(b0: Byte, b1: Byte, b2: Byte, b3: Byte)
    requires Tail(b1)
    ensures TailByte(Decode4(b0, b1, b2, b3) >> 12) == b1
  {
  }

  lemma Decoded4Tail2(b0: Byte, b1: Byte, b2: Byte, b3: Byte)
    requires Tail(b2)
    ensures TailByte(Decode4(b0, b1, b2, b3) >> 6) == b2
  {
  }

  lemma Decoded4Tail3(b0: Byte, b1: Byte, b2: Byte, b3: Byte)
    requires Tail(b3)
    ensures TailByte(Decode4(b0, b1, b2, b3)) == b3
  {
  }

  lemma DecodeThenEncode4(b0: Byte, b1: Byte, b2: Byte, b3: Byte)
    requires 0xF0 <= b0 <= 0xF7 && Tail(b1) && Tail(b2) && Tail(b3)
    ensures LeadByte(Decode4(b0, b1, b2, b3) >> 18, 0xF0) == b0
    ensures TailByte(Decode4(b0, b1, b2, b3) >> 12) == b1
    ensures TailByte(Decode4(b0, b1, b2, b3) >> 6) == b2
    ensures TailByte(Decode4(b0, b1, b2, b3)) == b3
  {
    Decoded4Lead(b0, b1, b2, b3);
    Decoded4Tail1(b0, b1, b2, b3);
    Decoded4Tail2(b0, b1, b2, b3);
    Decoded4Tail3(b0, b1, b2, b3);
  }

  // ----- Surrogates (RFC 2781, sections 2.1 and 2.2) -----

  predicate IsHigh(u: Unit) {
    u & 0xFC00 == 0xD800
  }

  predicate IsLow(u: Unit) {
    u & 0xFC00 == 0xDC00
  }

  function Combine(high: Unit, low: Unit): CodePoint {
    ((((high as CodePoint) - 0xD800) << 10) | ((low as CodePoint) - 0xDC00)) + 0x1_0000
  }

  /** `(char16_t)((c >> 10) + 0xD800)` with `c` already reduced by 0x10000; the cast keeps 16 bits. */
  function HighUnit(c: CodePoint): Unit {
    ((((c - 0x1_0000) >> 10) + 0xD800) & 0xFFFF) as Unit
  }

  function LowUnit(c: CodePoint): Unit {
    (((c - 0x1_0000) & 0x3FF) + 0xDC00) as Unit
  }

  function UnitsOf(c: CodePoint): (units: seq<Unit>)
    ensures |units| == if c <= 0xFFFF then 1 else 2
  {
    if c <= 0xFFFF then [c as Unit] else [HighUnit(c), LowUnit(c)]
  }

  lemma SplitThenCombine(c: CodePoint)
    requires 0x1_0000 <= c <= 0x10_FFFF
    ensures IsHigh(HighUnit(c)) && IsLow(LowUnit(c)) && Combine(HighUnit(c), LowUnit(c)) == c
  {
  }

  lemma CombineThenSplit(high: Unit, low: Unit)
    requires IsHigh(high) && IsLow(low)
    ensures 0x1_0000 <= Combine(high, low) <= 0x10_FFFF
    ensures HighUnit(Combine(high, low)) == high && LowUnit(Combine(high, low)) == low
  {
  }

  lemma SurrogateRange(u: Unit)
    ensures IsHigh(u) || IsLow(u) <==> 0xD800 <= u <= 0xDFFF
    ensures !(IsHigh(u) && IsLow(u))
    ensures 0xD800 <= u <= 0xDFFF <==> 55296 <= (u as CodePoint) <= 0xDFFF
    ensures (u as CodePoint) <= 0xFFFF && ((u as CodePoint) as Unit) == u
  {
  }

  // ----- The same in the numbers of RFC 3629, section 3, and RFC 2781, section 2.2 -----

  lemma NextTail(c: CodePoint, b: Byte)
    requires Tail(b)
    ensures ShiftAndMask(c, b) == (c << 6) + ((b as bv32) - 0x80)
  {
  }

  lemma LeadBits(b0: Byte)
    ensures 0xC0 <= b0 <= 0xDF ==> (b0 as bv32) & 0x1f == (b0 as bv32) - 0xC0
    ensures 0xE0 <= b0 <= 0xEF ==> (b0 as bv32) & 0x0f == (b0 as bv32) - 0xE0
    ensures 0xF0 <= b0 <= 0xF7 ==> (b0 as bv32) & 0x07 == (b0 as bv32) - 0xF0
  {
  }

  lemma Decode2Value(b0: Byte, b1: Byte)
    requires Utf8Char2(b0, b1)
    ensures Decode2(b0, b1) == (((b0 as bv32) - 0xC0) << 6) + ((b1 as bv32) - 0x80)
  {
    LeadBits(b0);
    NextTail((b0 as bv32) - 0xC0, b1);
  }

  lemma Decode3Value(b0: Byte, b1: Byte, b2: Byte)
    requires Utf8Char3(b0, b1, b2)
    ensures Decode3(b0, b1, b2)
            == (((((b0 as bv32) - 0xE0) << 6) + ((b1 as bv32) - 0x80)) << 6) + ((b2 as bv32) - 0x80)
  {
    LeadBits(b0);
    NextTail((b0 as bv32) - 0xE0, b1);
    hide ShiftAndMask;
    NextTail((((b0 as bv32) - 0xE0) << 6) + ((b1 as bv32) - 0x80), b2);
  }

  lemma Decode4Value(b0: Byte, b1: Byte, b2: Byte, b3: Byte)
    requires Utf8Char4(b0, b1, b2, b3)
    ensures Decode4(b0, b1, b2, b3)
            == (((b0 as bv32) - 0xF0) << 18) + (((b1 as bv32) - 0x80) << 12)
               + (((b2 as bv32) - 0x80) << 6) + ((b3 as bv32) - 0x80)
  {
  }

  lemma PairValue(high: Unit, low: Unit)
    requires 0xD800 <= high <= 0xDBFF && 0xDC00 <= low <= 0xDFFF
    ensures Combine(high, low) == 0x1_0000 + ((high as bv32) - 0xD800) * 0x400 + ((low as bv32) - 0xDC00)
  {
  }

  lemma SurrogateHalves(u: Unit)
    ensures IsHigh(u) <==> 0xD800 <= u <= 0xDBFF
    ensures IsLow(u) <==> 0xDC00 <= u <= 0xDFFF
  {
  }

  /** A byte that starts no longer character stands for itself, or where `char` is signed for its sign-extension. */
  lemma WideningTells(b: Byte)
    ensures WidenChar(false, b) == b as bv32
    ensures b < 0x80 ==> WidenChar(true, b) == b as bv32
    ensures b >= 0x80 ==> WidenChar(true, b) == (b as bv32) - 0x100
  {
  }
}
