/**
  Whole strings: what the decoder and the encoder compute, as functions, and the theorems that
  connect the two.
 */
module UtfConversion {
  import opened UtfCodePoints

  // ----- Decoding: bytes to UTF-16 units -----

  /** Every lead byte announces a character that the rest of the input can hold. */
  predicate Chunked(b: seq<Byte>) {
    b == [] || (Utf8CodePointLen(b[0]) <= |b| && Chunked(b[Utf8CodePointLen(b[0])..]))
  }

  /** The value the decoder gives to the character at the front of `b`, well formed or not. */
  function FirstCodePoint(signedChar: bool, b: seq<Byte>): CodePoint
    requires b != [] && Utf8CodePointLen(b[0]) <= |b|
  {
    match Utf8CodePointLen(b[0])
    case 1 => WidenChar(signedChar, b[0])
    case 2 => Decode2(b[0], b[1])
    case 3 => Decode3(b[0], b[1], b[2])
    case _ => Decode4(b[0], b[1], b[2], b[3])
  }

  function Decode(signedChar: bool, b: seq<Byte>): seq<Unit>
    requires Chunked(b)
  {
    if b == [] then []
    else UnitsOf(FirstCodePoint(signedChar, b)) + Decode(signedChar, b[Utf8CodePointLen(b[0])..])
  }

  // ----- Encoding: UTF-16 units to bytes -----

  predicate PairAtFront(u: seq<Unit>) {
    |u| >= 2 && IsHigh(u[0]) && IsLow(u[1])
  }

  function FrontLength(u: seq<Unit>): (n: nat)
    requires u != []
    ensures 1 <= n <= |u|
  {
    if PairAtFront(u) then 2 else 1
  }

  function FrontCodePoint(u: seq<Unit>): CodePoint
    requires u != []
  {
    if PairAtFront(u) then Combine(u[0], u[1]) else u[0] as CodePoint
  }

  function Encode(u: seq<Unit>): seq<Byte> {
    if u == [] then [] else EncodeCodePoint(FrontCodePoint(u)) + Encode(u[FrontLength(u)..])
  }

  /** What fits in `room` bytes, stopping before the first character that does not. */
  function EncodeFitting(u: seq<Unit>, room: nat): (bytes: seq<Byte>)
    ensures |bytes| <= room
  {
    if u == [] || |EncodeCodePoint(FrontCodePoint(u))| > room then []
    else
      var first := EncodeCodePoint(FrontCodePoint(u));
      first + EncodeFitting(u[FrontLength(u)..], room - |first|)
  }

  // ----- Reference notions -----

  /** `b` is a sequence of UTF-8 characters in the sense of section 4 of RFC 3629. */
  predicate WellFormed(b: seq<Byte>) {
    b == [] || (CharLength(b) > 0 && WellFormed(b[CharLength(b)..]))
  }

  predicate IsSurrogate(u: Unit) {
    0xD800 <= u <= 0xDFFF
  }

  /** Unit `i` is an ordinary character or half of a surrogate pair. */
  predicate Survives(u: seq<Unit>, i: nat)
    requires i < |u|
  {
    || !IsSurrogate(u[i])
    || (IsHigh(u[i]) && i + 1 < |u| && IsLow(u[i + 1]))
    || (IsLow(u[i]) && i > 0 && IsHigh(u[i - 1]))
  }

  /** `u` from index `i` on, without its unpaired surrogates. */
  function Surviving(u: seq<Unit>, i: nat): seq<Unit>
    requires i <= |u|
    decreases |u| - i
  {
    if i == |u| then [] else (if Survives(u, i) then [u[i]] else []) + Surviving(u, i + 1)
  }

  // ----- One character -----

  predicate IsScalar(c: CodePoint) {
    c <= 0x10_FFFF && !(0xD800 <= c <= 0xDFFF)
  }

  lemma ScalarLength(c: CodePoint)
    ensures IsScalar(c) <==> Utf32CodePointUtf8Length(c) > 0
  {
  }

  lemma GrammarLength(b: seq<Byte>)
    requires CharLength(b) > 0
    ensures Utf8CodePointLen(b[0]) == CharLength(b)
  {
    LeadByteTable(b[0]);
  }

  lemma Char3Length(b: seq<Byte>)
    requires |b| >= 3 && Utf8Char3(b[0], b[1], b[2])
    ensures CharLength(b) == 3
  {
  }

  lemma Char4Length(b: seq<Byte>)
    requires |b| >= 4 && Utf8Char4(b[0], b[1], b[2], b[3])
    ensures CharLength(b) == 4
  {
  }

  lemma Encoded3(signedChar: bool, c: CodePoint, rest: seq<Byte>)
    requires 0x800 <= c < 0x1_0000 && !(0xD800 <= c <= 0xDFFF)
    ensures var b := EncodeAs(c, 3) + rest;
            CharLength(b) == 3 && Utf8CodePointLen(b[0]) == 3 && FirstCodePoint(signedChar, b) == c
  {
    hide TailByte, LeadByte, Shift6, Utf8Char3, Decode3, CharLength, Utf8CodePointLen;
    var b := EncodeAs(c, 3) + rest;
    ShiftsCompose(c);
    ShiftOnce(c);
    EncodeThenDecode3(c);
    Char3Length(b);
    GrammarLength(b);
  }

  lemma Encoded4(signedChar: bool, c: CodePoint, rest: seq<Byte>)
    requires 0x1_0000 <= c <= 0x10_FFFF
    ensures var b := EncodeAs(c, 4) + rest;
            CharLength(b) == 4 && Utf8CodePointLen(b[0]) == 4 && FirstCodePoint(signedChar, b) == c
  {
    hide TailByte, LeadByte, Shift6, Utf8Char4, Decode4, CharLength, Utf8CodePointLen;
    var b := EncodeAs(c, 4) + rest;
    ShiftsCompose(c);
    ShiftOnce(c);
    EncodeThenDecode4(c);
    Char4Length(b);
    GrammarLength(b);
  }

  lemma ShiftOnce(c: CodePoint)
    ensures Shift6(c) == c >> 6
  {
  }

  /** The bytes of a scalar value are one grammatical character, and decode to that value. */
  lemma EncodedCharacter(signedChar: bool, c: CodePoint, rest: seq<Byte>)
    requires IsScalar(c)
    ensures var e := EncodeCodePoint(c);
            && e != [] && CharLength(e + rest) == |e| && Utf8CodePointLen(e[0]) == |e|
            && FirstCodePoint(signedChar, e + rest) == c
  {
    RangeIsLength(c);
    var n := Utf32CodePointUtf8Length(c);
    if n == 1 {
    } else if n == 2 {
      EncodeThenDecode2(c);
    } else if n == 3 {
      Encoded3(signedChar, c, rest);
    } else {
      Encoded4(signedChar, c, rest);
    }
  }

  lemma BytesOf2(b0: Byte, b1: Byte)
    requires Utf8Char2(b0, b1)
    ensures EncodeAs(Decode2(b0, b1), 2) == [b0, b1]
  {
    DecodeThenEncode2(b0, b1);
  }

  lemma BytesOf3(b0: Byte, b1: Byte, b2: Byte)
    requires 0xE0 <= b0 <= 0xEF && Tail(b1) && Tail(b2)
    ensures EncodeAs(Decode3(b0, b1, b2), 3) == [b0, b1, b2]
  {
    DecodeThenEncode3(b0, b1, b2);
  }

  lemma BytesOf4(b0: Byte, b1: Byte, b2: Byte, b3: Byte)
    requires 0xF0 <= b0 <= 0xF7 && Tail(b1) && Tail(b2) && Tail(b3)
    ensures EncodeAs(Decode4(b0, b1, b2, b3), 4) == [b0, b1, b2, b3]
  {
    DecodeThenEncode4(b0, b1, b2, b3);
  }

  lemma RangeIsLength(c: CodePoint)
    ensures c < 0x80 <==> Utf32CodePointUtf8Length(c) == 1
    ensures 0x80 <= c < 0x800 <==> Utf32CodePointUtf8Length(c) == 2
    ensures 0x800 <= c < 0x1_0000 && !(0xD800 <= c <= 0xDFFF) <==> Utf32CodePointUtf8Length(c) == 3
    ensures 0x1_0000 <= c <= 0x10_FFFF <==> Utf32CodePointUtf8Length(c) == 4
  {
  }

  lemma LengthOf3(b0: Byte, b1: Byte, b2: Byte)
    requires Utf8Char3(b0, b1, b2)
    ensures Utf32CodePointUtf8Length(Decode3(b0, b1, b2)) == 3
  {
    Decode3InRange(b0, b1, b2);
    RangeIsLength(Decode3(b0, b1, b2));
  }

  lemma LengthOf4(b0: Byte, b1: Byte, b2: Byte, b3: Byte)
    requires Utf8Char4(b0, b1, b2, b3)
    ensures Utf32CodePointUtf8Length(Decode4(b0, b1, b2, b3)) == 4
  {
    Decode4InRange(b0, b1, b2, b3);
    RangeIsLength(Decode4(b0, b1, b2, b3));
  }

  /** A grammatical character has the announced length, decodes to a scalar value and re-encodes to itself. */
  lemma DecodedCharacter(signedChar: bool, b: seq<Byte>)
    requires CharLength(b) > 0
    ensures Utf8CodePointLen(b[0]) == CharLength(b)
    ensures IsScalar(FirstCodePoint(signedChar, b))
    ensures EncodeCodePoint(FirstCodePoint(signedChar, b)) == b[..CharLength(b)]
  {
    GrammarLength(b);
    var n := CharLength(b);
    if n == 1 {
    } else if n == 2 {
      BytesOf2(b[0], b[1]);
      DecodeThenEncode2(b[0], b[1]);
    } else if n == 3 {
      BytesOf3(b[0], b[1], b[2]);
      LengthOf3(b[0], b[1], b[2]);
    } else {
      BytesOf4(b[0], b[1], b[2], b[3]);
      LengthOf4(b[0], b[1], b[2], b[3]);
    }
    ScalarLength(FirstCodePoint(signedChar, b));
  }

  // ----- Encode, then decode -----

  lemma PairIsScalar(high: Unit, low: Unit)
    requires IsHigh(high) && IsLow(low)
    ensures IsScalar(Combine(high, low)) && UnitsOf(Combine(high, low)) == [high, low]
  {
    CombineThenSplit(high, low);
  }

  lemma SingleIsScalar(u: Unit)
    ensures if IsSurrogate(u) then EncodeCodePoint(u as CodePoint) == []
            else IsScalar(u as CodePoint) && UnitsOf(u as CodePoint) == [u]
  {
    SurrogateRange(u);
  }

  /** The front of a UTF-16 string gives a scalar value, unless it is an unpaired surrogate, which gives no bytes. */
  lemma FrontCharacter(u: seq<Unit>)
    requires u != []
    ensures if !PairAtFront(u) && IsSurrogate(u[0]) then EncodeCodePoint(FrontCodePoint(u)) == []
            else IsScalar(FrontCodePoint(u)) && UnitsOf(FrontCodePoint(u)) == u[..FrontLength(u)]
  {
    if PairAtFront(u) {
      PairIsScalar(u[0], u[1]);
    } else {
      SingleIsScalar(u[0]);
    }
  }

  /** What the encoder's output decodes to: the front character is kept or dropped, then the rest. */
  function Kept(u: seq<Unit>): seq<Unit> {
    if u == [] then []
    else (if !PairAtFront(u) && IsSurrogate(u[0]) then [] else u[..FrontLength(u)]) + Kept(u[FrontLength(u)..])
  }

  lemma {:induction false} EncodeThenDecode(signedChar: bool, u: seq<Unit>)
    ensures WellFormed(Encode(u)) && Chunked(Encode(u)) && Decode(signedChar, Encode(u)) == Kept(u)
  {
    if u != [] {
      var e, rest := EncodeCodePoint(FrontCodePoint(u)), u[FrontLength(u)..];
      EncodeThenDecode(signedChar, rest);
      FrontCharacter(u);
      if e == [] {
        assert Encode(u) == Encode(rest);
      } else {
        ScalarLength(FrontCodePoint(u));
        EncodedCharacter(signedChar, FrontCodePoint(u), Encode(rest));
        assert (e + Encode(rest))[|e|..] == Encode(rest);
      }
    }
  }

  predicate PairAt(u: seq<Unit>, i: nat) {
    i + 1 < |u| && IsHigh(u[i]) && IsLow(u[i + 1])
  }

  lemma SurvivingPair(u: seq<Unit>, i: nat)
    requires PairAt(u, i)
    ensures Surviving(u, i) == [u[i], u[i + 1]] + Surviving(u, i + 2)
  {
    assert Survives(u, i) && Survives(u, i + 1);
  }

  lemma SurvivingSingle(u: seq<Unit>, i: nat)
    requires i < |u| && !PairAt(u, i)
    requires i > 0 ==> !PairAt(u, i - 1)
    ensures Surviving(u, i) == (if IsSurrogate(u[i]) then [] else [u[i]]) + Surviving(u, i + 1)
  {
  }

  lemma NoPairInsidePair(u: seq<Unit>, i: nat)
    requires PairAt(u, i)
    ensures !PairAt(u, i + 1)
  {
  }

  lemma KeptPair(u: seq<Unit>, i: nat)
    requires PairAt(u, i)
    ensures Kept(u[i..]) == [u[i], u[i + 1]] + Kept(u[i + 2..])
  {
    var v := u[i..];
    assert v[2..] == u[i + 2..] && v[..2] == [u[i], u[i + 1]];
  }

  lemma KeptSingle(u: seq<Unit>, i: nat)
    requires i < |u| && !PairAt(u, i)
    ensures Kept(u[i..]) == (if IsSurrogate(u[i]) then [] else [u[i]]) + Kept(u[i + 1..])
  {
    var v := u[i..];
    assert v[1..] == u[i + 1..] && v[..1] == [u[i]];
  }

  /** Reading pairs greedily from the left keeps exactly the units that survive by position. */
  lemma {:induction false} KeptIsSurviving(u: seq<Unit>, i: nat)
    requires i <= |u|
    requires i > 0 ==> !PairAt(u, i - 1)
    ensures Kept(u[i..]) == Surviving(u, i)
    decreases |u| - i
  {
    if i == |u| {
    } else if PairAt(u, i) {
      KeptPair(u, i);
      SurvivingPair(u, i);
      NoPairInsidePair(u, i);
      KeptIsSurviving(u, i + 2);
    } else {
      KeptSingle(u, i);
      SurvivingSingle(u, i);
      KeptIsSurviving(u, i + 1);
    }
  }

  /**
    Theorem. Encoding a UTF-16 string gives bytes that satisfy the RFC 3629 grammar, and decoding them
    gives the string back without exactly its unpaired surrogates.
   */
  lemma RoundTrip(signedChar: bool, u: seq<Unit>)
    ensures WellFormed(Encode(u)) && Chunked(Encode(u))
    ensures Decode(signedChar, Encode(u)) == Surviving(u, 0)
  {
    EncodeThenDecode(signedChar, u);
    KeptIsSurviving(u, 0);
    assert u[0..] == u;
  }

  lemma {:induction false} SurvivingAll(u: seq<Unit>, i: nat)
    requires i <= |u|
    ensures |Surviving(u, i)| <= |u| - i
    ensures Surviving(u, i) == u[i..] <==> forall k :: i <= k < |u| ==> Survives(u, k)
    decreases |u| - i
  {
    if i < |u| {
      SurvivingAll(u, i + 1);
      assert u[i..] == [u[i]] + u[i + 1..];
      if Survives(u, i) {
        assert Surviving(u, i)[1..] == Surviving(u, i + 1);
      }
    }
  }

  /** Theorem. The round trip loses nothing exactly when every surrogate is paired. */
  lemma RoundTripIsLossless(signedChar: bool, u: seq<Unit>)
    ensures Chunked(Encode(u))
    ensures Decode(signedChar, Encode(u)) == u <==> forall k :: 0 <= k < |u| ==> Survives(u, k)
  {
    RoundTrip(signedChar, u);
    SurvivingAll(u, 0);
    assert u[0..] == u;
  }

  // ----- Decode, then encode -----

  lemma PairEncodes(high: Unit, low: Unit, rest: seq<Unit>)
    requires IsHigh(high) && IsLow(low)
    ensures Encode([high, low] + rest) == EncodeCodePoint(Combine(high, low)) + Encode(rest)
  {
    hide IsHigh, IsLow, EncodeCodePoint, Combine;
    assert ([high, low] + rest)[2..] == rest;
  }

  lemma SingleInFront(unit: Unit, rest: seq<Unit>)
    requires !IsHigh(unit)
    ensures var u := [unit] + rest; FrontLength(u) == 1 && FrontCodePoint(u) == unit as CodePoint && u[1..] == rest
  {
  }

  lemma SingleEncodes(unit: Unit, rest: seq<Unit>)
    requires !IsHigh(unit)
    ensures Encode([unit] + rest) == EncodeCodePoint(unit as CodePoint) + Encode(rest)
  {
    SingleInFront(unit, rest);
    hide IsHigh, IsLow, EncodeCodePoint, FrontLength, FrontCodePoint;
  }

  /** Encoding the units of one scalar value, followed by anything, starts with that value. */
  lemma UnitsEncode(c: CodePoint, rest: seq<Unit>)
    requires IsScalar(c)
    ensures Encode(UnitsOf(c) + rest) == EncodeCodePoint(c) + Encode(rest)
  {
    if c <= 0xFFFF {
      ScalarUnit(c);
      SingleEncodes(c as Unit, rest);
    } else {
      SplitThenCombine(c);
      PairEncodes(HighUnit(c), LowUnit(c), rest);
    }
  }

  lemma ScalarUnit(c: CodePoint)
    requires IsScalar(c) && c <= 0xFFFF
    ensures !IsHigh(c as Unit) && ((c as Unit) as CodePoint) == c
  {
  }

  lemma ReverseStep(b: seq<Byte>, n: nat, c: CodePoint, rest: seq<Unit>)
    requires n <= |b| && IsScalar(c) && EncodeCodePoint(c) == b[..n] && Encode(rest) == b[n..]
    ensures Encode(UnitsOf(c) + rest) == b
  {
    hide EncodeCodePoint, UnitsOf, Encode, IsScalar;
    UnitsEncode(c, rest);
    assert b == b[..n] + b[n..];
  }

  /** Theorem. Bytes in the RFC 3629 grammar can be decoded, and come back unchanged. */
  lemma {:induction false} ReverseRoundTrip(signedChar: bool, b: seq<Byte>)
    requires WellFormed(b)
    ensures Chunked(b) && Encode(Decode(signedChar, b)) == b
  {
    if b != [] {
      var n := CharLength(b);
      DecodedCharacter(signedChar, b);
      ReverseRoundTrip(signedChar, b[n..]);
      ReverseStep(b, n, FirstCodePoint(signedChar, b), Decode(signedChar, b[n..]));
    }
  }

  /** Theorem. The bytes the encoder can produce are exactly the grammatical ones. */
  lemma EncoderImage(b: seq<Byte>)
    ensures WellFormed(b) <==> exists u :: Encode(u) == b
  {
    if WellFormed(b) {
      ReverseRoundTrip(false, b);
      assert Encode(Decode(false, b)) == b;
    }
    forall u | Encode(u) == b
      ensures WellFormed(b)
    {
      RoundTrip(false, u);
    }
  }

  /** Theorem. Of the bytes that the length pass accepts, exactly the grammatical ones come back unchanged. */
  lemma ReverseRoundTripIsExact(signedChar: bool, b: seq<Byte>)
    requires Chunked(b)
    ensures Encode(Decode(signedChar, b)) == b <==> WellFormed(b)
  {
    if WellFormed(b) {
      ReverseRoundTrip(signedChar, b);
    }
    EncoderImage(b);
  }

  /** An overlong form of U+0000 is accepted, and comes back as one byte. */
  lemma OverlongIsAccepted(signedChar: bool)
    ensures var b: seq<Byte> := [0xC0, 0x80];
            Chunked(b) && !WellFormed(b) && Decode(signedChar, b) == [0] && Encode([0]) == [0]
  {
    var b: seq<Byte> := [0xC0, 0x80];
    LeadByteTable(b[0]);
    assert b[2..] == [];
    var zero: seq<Unit> := [0];
    assert zero[1..] == [];
  }

  /** Theorem. Decoding grammatical bytes never leaves a surrogate unpaired. */
  lemma DecodedIsPaired(signedChar: bool, b: seq<Byte>)
    requires WellFormed(b)
    ensures Chunked(b)
    ensures var u := Decode(signedChar, b); forall k :: 0 <= k < |u| ==> Survives(u, k)
  {
    ReverseRoundTrip(signedChar, b);
    RoundTripIsLossless(signedChar, Decode(signedChar, b));
  }

  // ----- Truncation -----

  /** Encoding into limited room writes a whole-character prefix, and all of it exactly when it fits. */
  lemma {:induction false} FittingIsPrefix(u: seq<Unit>, room: nat)
    ensures EncodeFitting(u, room) <= Encode(u)
    ensures EncodeFitting(u, room) == Encode(u) <==> |Encode(u)| <= room
    ensures WellFormed(EncodeFitting(u, room))
  {
    hide EncodeCodePoint, CharLength, FrontCodePoint, FrontLength;
    if u != [] {
      var e, rest := EncodeCodePoint(FrontCodePoint(u)), u[FrontLength(u)..];
      if |e| <= room {
        FittingIsPrefix(rest, room - |e|);
        EncodedInFront(FrontCodePoint(u), EncodeFitting(rest, room - |e|));
      }
    }
  }

  lemma EncodedInFront(c: CodePoint, rest: seq<Byte>)
    requires WellFormed(rest)
    ensures WellFormed(EncodeCodePoint(c) + rest)
  {
    var e := EncodeCodePoint(c);
    ScalarLength(c);
    if e == [] {
      assert e + rest == rest;
    } else {
      EncodedCharacter(false, c, rest);
      assert (e + rest)[|e|..] == rest;
    }
  }

  /** A prefix that does not cut the first character starts with it. */
  lemma PrefixEncodes(u: seq<Unit>, i: nat)
    requires u != [] && FrontLength(u) <= i <= |u|
    ensures Encode(u[..i]) == EncodeCodePoint(FrontCodePoint(u)) + Encode(u[FrontLength(u)..][..i - FrontLength(u)])
  {
    PrefixFront(u, i);
    hide EncodeCodePoint, FrontCodePoint, FrontLength;
    assert u[..i][FrontLength(u)..] == u[FrontLength(u)..][..i - FrontLength(u)];
  }

  lemma PrefixFront(u: seq<Unit>, i: nat)
    requires u != [] && FrontLength(u) <= i <= |u|
    ensures u[..i] != [] && FrontLength(u[..i]) == FrontLength(u) && FrontCodePoint(u[..i]) == FrontCodePoint(u)
  {
    hide Combine, IsLow, IsHigh;
  }

  /** A prefix that cuts the first surrogate pair in two encodes to nothing. */
  lemma CutPairEncodes(u: seq<Unit>, i: nat)
    requires 0 < i <= |u| && i < FrontLength(u)
    ensures Encode(u[..i]) == []
  {
    hide EncodeCodePoint, Encode, Combine, IsLow;
    assert u[..i] == [u[0]];
    LoneHighIsDropped(u[0]);
  }

  lemma LoneHighIsDropped(unit: Unit)
    ensures IsHigh(unit) ==> Encode([unit]) == []
  {
    SingleIsScalar(unit);
    SurrogateRange(unit);
    assert [unit][1..] == [];
  }

  /** What fits is the encoding of some prefix. */
  lemma {:induction false} FittingIsEncodedPrefix(u: seq<Unit>, room: nat) returns (i: nat)
    ensures i <= |u| && Encode(u[..i]) == EncodeFitting(u, room)
  {
    hide EncodeCodePoint, Combine;
    i := 0;
    assert u[..0] == [];
    if u != [] {
      var e, n := EncodeCodePoint(FrontCodePoint(u)), FrontLength(u);
      if |e| <= room {
        var j := FittingIsEncodedPrefix(u[n..], room - |e|);
        i := n + j;
        PrefixEncodes(u, i);
        assert u[n..][..i - n] == u[n..][..j];
      }
    }
  }

  lemma {:induction false} PrefixFills(u: seq<Unit>, room: nat, i: nat)
    requires i <= |u| && |Encode(u[..i])| == room
    ensures |EncodeFitting(u, room)| == room
  {
    hide EncodeCodePoint, Combine;
    if i == 0 {
      assert u[..0] == [];
    } else {
      var e, n := EncodeCodePoint(FrontCodePoint(u)), FrontLength(u);
      if i < n {
        CutPairEncodes(u, i);
      } else {
        PrefixEncodes(u, i);
        PrefixFills(u[n..], room - |e|, i - n);
      }
    }
  }

  /**
    Theorem. The encoder fills its `room` bytes to the last, so that the terminator that follows needs one
    more, if and only if some prefix of the string encodes to exactly that many bytes.
   */
  lemma FillsExactly(u: seq<Unit>, room: nat)
    ensures |EncodeFitting(u, room)| == room <==> exists i :: 0 <= i <= |u| && |Encode(u[..i])| == room
  {
    var i := FittingIsEncodedPrefix(u, room);
    if j :| 0 <= j <= |u| && |Encode(u[..j])| == room {
      PrefixFills(u, room, j);
    }
  }

  /** Theorem. What is written is the longest encoding of a prefix that fits. */
  lemma {:induction false} FittingIsLongest(u: seq<Unit>, room: nat, i: nat)
    requires i <= |u| && |Encode(u[..i])| <= room
    ensures Encode(u[..i]) <= EncodeFitting(u, room)
  {
    hide EncodeCodePoint, FrontCodePoint, FrontLength, Encode, EncodeFitting;
    if i == 0 {
      assert u[..0] == [];
      NothingEncodes();
    } else {
      var e, n := EncodeCodePoint(FrontCodePoint(u)), FrontLength(u);
      if i < n {
        CutPairEncodes(u, i);
      } else {
        PrefixEncodes(u, i);
        FrontFits(u, room);
        FittingIsLongest(u[n..], room - |e|, i - n);
      }
    }
  }

  lemma NothingEncodes()
    ensures Encode([]) == []
  {
  }

  lemma FrontFits(u: seq<Unit>, room: nat)
    requires u != [] && |EncodeCodePoint(FrontCodePoint(u))| <= room
    ensures var first := EncodeCodePoint(FrontCodePoint(u));
            EncodeFitting(u, room) == first + EncodeFitting(u[FrontLength(u)..], room - |first|)
  {
    hide EncodeCodePoint, FrontCodePoint, FrontLength;
  }

  /** The letter A into one byte: the terminator would go to the second. */
  lemma TerminatorPastTheEnd()
    ensures EncodeFitting([0x41], 1) == [0x41]
  {
    var a: seq<Unit> := [0x41];
    assert a[1..] == [];
    assert FrontCodePoint(a) == 0x41 && EncodeCodePoint(0x41) == [0x41];
  }

  /** Every character that is begun before `room` units are stored is complete: nothing past the end is read. */
  predicate Readable(signedChar: bool, b: seq<Byte>, room: nat): (r: bool)
    ensures Chunked(b) ==> r
  {
    b == [] || room == 0 ||
    (Utf8CodePointLen(b[0]) <= |b|
     && var n := |UnitsOf(FirstCodePoint(signedChar, b))|;
        n > room || Readable(signedChar, b[Utf8CodePointLen(b[0])..], room - n))
  }

  /** What is stored into `room` units: the last character perhaps by half. */
  function DecodeInto(signedChar: bool, b: seq<Byte>, room: nat): (units: seq<Unit>)
    requires Readable(signedChar, b, room)
    ensures |units| <= room
  {
    if b == [] || room == 0 then []
    else
      var first := UnitsOf(FirstCodePoint(signedChar, b));
      if |first| > room then first[..room]
      else first + DecodeInto(signedChar, b[Utf8CodePointLen(b[0])..], room - |first|)
  }

  /** The units of the characters that fit whole into `room` units. */
  function WholeUnits(signedChar: bool, b: seq<Byte>, room: nat): (n: nat)
    requires Readable(signedChar, b, room)
    ensures n <= room
  {
    if b == [] || room == 0 then 0
    else
      var n := |UnitsOf(FirstCodePoint(signedChar, b))|;
      if n > room then 0 else n + WholeUnits(signedChar, b[Utf8CodePointLen(b[0])..], room - n)
  }

  function FirstUnits(units: seq<Unit>, room: nat): seq<Unit> {
    if |units| <= room then units else units[..room]
  }

  lemma FirstUnitsConcat(first: seq<Unit>, rest: seq<Unit>, room: nat)
    ensures FirstUnits(first + rest, room)
            == if |first| > room then first[..room] else first + FirstUnits(rest, room - |first|)
  {
  }

  lemma FirstUnitsNone(units: seq<Unit>)
    ensures FirstUnits(units, 0) == []
  {
  }

  lemma DecodeUnfolds(signedChar: bool, b: seq<Byte>)
    requires Chunked(b) && b != []
    ensures Utf8CodePointLen(b[0]) <= |b| && Chunked(b[Utf8CodePointLen(b[0])..])
    ensures Decode(signedChar, b)
            == UnitsOf(FirstCodePoint(signedChar, b)) + Decode(signedChar, b[Utf8CodePointLen(b[0])..])
  {
    hide UnitsOf, FirstCodePoint, Utf8CodePointLen;
  }

  /** Theorem. Of input that the length pass accepts, exactly the first units of the full decoding are stored. */
  lemma {:induction false} DecodeIntoIsPrefix(signedChar: bool, b: seq<Byte>, room: nat)
    requires Chunked(b)
    ensures DecodeInto(signedChar, b, room) == FirstUnits(Decode(signedChar, b), room)
    decreases |b|
  {
    hide UnitsOf, FirstCodePoint, Utf8CodePointLen, FirstUnits, Decode;
    if b == [] {
      NothingDecodes(signedChar, b, room);
    } else if room == 0 {
      FirstUnitsNone(Decode(signedChar, b));
    } else {
      DecodeUnfolds(signedChar, b);
      var first, rest := UnitsOf(FirstCodePoint(signedChar, b)), b[Utf8CodePointLen(b[0])..];
      FirstUnitsConcat(first, Decode(signedChar, rest), room);
      if |first| <= room {
        DecodeIntoIsPrefix(signedChar, rest, room - |first|);
      }
    }
  }

  lemma NothingDecodes(signedChar: bool, b: seq<Byte>, room: nat)
    requires b == []
    ensures Decode(signedChar, b) == [] && FirstUnits([], room) == []
  {
  }

  /** Cutting a decoded string off at `room` units splits at most one surrogate pair. */
  lemma {:induction false} CutSplitsAtMostOnePair(signedChar: bool, b: seq<Byte>, room: nat)
    requires Chunked(b)
    ensures WholeUnits(signedChar, b, room) <= |Decode(signedChar, b)|
    ensures |Decode(signedChar, b)| <= room ==> WholeUnits(signedChar, b, room) == |Decode(signedChar, b)|
    ensures |Decode(signedChar, b)| > room ==> WholeUnits(signedChar, b, room) >= room - 1
  {
    if b != [] && room > 0 {
      var n := |UnitsOf(FirstCodePoint(signedChar, b))|;
      if n <= room {
        CutSplitsAtMostOnePair(signedChar, b[Utf8CodePointLen(b[0])..], room - n);
      }
    }
  }

  lemma UnitsOfScalar(c: CodePoint)
    requires IsScalar(c)
    ensures var u := UnitsOf(c); if |u| == 1 then !IsHigh(u[0]) else IsHigh(u[0]) && !IsHigh(u[1])
  {
    if c <= 0xFFFF {
      ScalarUnit(c);
    } else {
      SplitThenCombine(c);
      SurrogateRange(LowUnit(c));
    }
  }

  /** In grammatical input the cut splits a pair exactly when the last unit before it is a high surrogate. */
  lemma {:induction false} CutSplitsPair(signedChar: bool, b: seq<Byte>, room: nat)
    requires WellFormed(b) && Chunked(b) && 0 < room < |Decode(signedChar, b)|
    ensures WholeUnits(signedChar, b, room) == room - 1 <==> IsHigh(Decode(signedChar, b)[room - 1])
  {
    hide IsHigh, UnitsOf, FirstCodePoint;
    var units, rest := UnitsOf(FirstCodePoint(signedChar, b)), b[CharLength(b)..];
    DecodedCharacter(signedChar, b);
    UnitsOfScalar(FirstCodePoint(signedChar, b));
    if room > |units| {
      CutSplitsPair(signedChar, rest, room - |units|);
    }
  }

  // ----- What is read -----

  /** `whole` fits into `room` units; what comes after it, if there is room left, does not. */
  ghost predicate StopsBefore(signedChar: bool, whole: seq<Unit>, rest: seq<Byte>, room: nat) {
    && |whole| <= room
    && (rest != [] && |whole| < room ==>
          Utf8CodePointLen(rest[0]) <= |rest| && |whole| + |UnitsOf(FirstCodePoint(signedChar, rest))| > room)
  }

  /** `whole` and, if there is room left, as much of the next character as fits. */
  ghost function Filled(signedChar: bool, whole: seq<Unit>, rest: seq<Byte>, room: nat): seq<Unit>
    requires StopsBefore(signedChar, whole, rest, room)
  {
    whole + if rest != [] && |whole| < room
            then UnitsOf(FirstCodePoint(signedChar, rest))[..room - |whole|] else []
  }

  lemma StopsBehind(signedChar: bool, first: seq<Unit>, whole: seq<Unit>, rest: seq<Byte>, room: nat)
    requires |first| <= room && StopsBefore(signedChar, whole, rest, room - |first|)
    ensures StopsBefore(signedChar, first + whole, rest, room)
    ensures Filled(signedChar, first + whole, rest, room) == first + Filled(signedChar, whole, rest, room - |first|)
  {
    hide UnitsOf, FirstCodePoint, Utf8CodePointLen;
  }

  lemma OneCharacterMore(signedChar: bool, b: seq<Byte>, j: nat)
    requires b != [] && Utf8CodePointLen(b[0]) <= j <= |b| && Chunked(b[Utf8CodePointLen(b[0])..j])
    ensures Chunked(b[..j])
    ensures Decode(signedChar, b[..j])
            == UnitsOf(FirstCodePoint(signedChar, b)) + Decode(signedChar, b[Utf8CodePointLen(b[0])..j])
  {
    var n := Utf8CodePointLen(b[0]);
    assert b[..j][n..] == b[n..j];
    FrontIsLocal(signedChar, b, j);
    hide UnitsOf, FirstCodePoint, Utf8CodePointLen;
  }

  lemma FrontIsLocal(signedChar: bool, b: seq<Byte>, j: nat)
    requires b != [] && Utf8CodePointLen(b[0]) <= j <= |b|
    ensures FirstCodePoint(signedChar, b[..j]) == FirstCodePoint(signedChar, b)
  {
  }

  /** The first `j` bytes are what the conversion reads whole. */
  ghost predicate ReadsUpTo(signedChar: bool, b: seq<Byte>, room: nat, j: nat)
    requires Readable(signedChar, b, room)
  {
    && j <= |b| && Chunked(b[..j]) && StopsBefore(signedChar, Decode(signedChar, b[..j]), b[j..], room)
    && WholeUnits(signedChar, b, room) == |Decode(signedChar, b[..j])|
    && DecodeInto(signedChar, b, room) == Filled(signedChar, Decode(signedChar, b[..j]), b[j..], room)
  }

  lemma ReadsNothing(signedChar: bool, b: seq<Byte>, room: nat)
    requires Readable(signedChar, b, room)
    requires b == [] || room == 0 || |UnitsOf(FirstCodePoint(signedChar, b))| > room
    ensures ReadsUpTo(signedChar, b, room, 0)
  {
    hide UnitsOf, FirstCodePoint, Utf8CodePointLen;
    assert b[..0] == [] && b[0..] == b;
  }

  lemma ReadsOneMore(signedChar: bool, b: seq<Byte>, room: nat, k: nat)
    requires Readable(signedChar, b, room) && b != [] && room > 0
    requires var first := UnitsOf(FirstCodePoint(signedChar, b));
             && |first| <= room
             && ReadsUpTo(signedChar, b[Utf8CodePointLen(b[0])..], room - |first|, k)
    ensures ReadsUpTo(signedChar, b, room, Utf8CodePointLen(b[0]) + k)
  {
    hide UnitsOf, FirstCodePoint, Utf8CodePointLen, StopsBefore, Filled, Decode, Chunked;
    var n, first := Utf8CodePointLen(b[0]), UnitsOf(FirstCodePoint(signedChar, b));
    var j := n + k;
    assert b[n..][..k] == b[n..j] && b[n..][k..] == b[j..];
    OneCharacterMore(signedChar, b, j);
    StopsBehind(signedChar, first, Decode(signedChar, b[n..j]), b[j..], room);
  }

  /**
    Theorem. The conversion stops behind the last whole character that fits; it stores the units up to there and
    as much of the next character as there is room for, and says how many units the whole characters took.
   */
  lemma {:induction false} ReadsWholeCharacters(signedChar: bool, b: seq<Byte>, room: nat) returns (j: nat)
    requires Readable(signedChar, b, room)
    ensures j <= |b| && Chunked(b[..j]) && StopsBefore(signedChar, Decode(signedChar, b[..j]), b[j..], room)
    ensures WholeUnits(signedChar, b, room) == |Decode(signedChar, b[..j])|
    ensures DecodeInto(signedChar, b, room) == Filled(signedChar, Decode(signedChar, b[..j]), b[j..], room)
  {
    hide UnitsOf, FirstCodePoint, Utf8CodePointLen, StopsBefore, Filled, Decode, Chunked, WholeUnits, DecodeInto;
    j := StopsAt(signedChar, b, room);
  }

  lemma {:induction false} StopsAt(signedChar: bool, b: seq<Byte>, room: nat) returns (j: nat)
    requires Readable(signedChar, b, room)
    ensures ReadsUpTo(signedChar, b, room, j)
    decreases |b|
  {
    hide UnitsOf, FirstCodePoint, ReadsUpTo;
    if b == [] || room == 0 || |UnitsOf(FirstCodePoint(signedChar, b))| > room {
      j := 0;
      ReadsNothing(signedChar, b, room);
    } else {
      var n, first := Utf8CodePointLen(b[0]), UnitsOf(FirstCodePoint(signedChar, b));
      var k := StopsAt(signedChar, b[n..], room - |first|);
      ReadsOneMore(signedChar, b, room, k);
      j := n + k;
    }
  }
}
