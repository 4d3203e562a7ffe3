/**
  The string conversions as the native string classes run them: cursor loops over caller-supplied
  buffers, each proved against the functions of `UtfConversion`.

  `signedChar` is whether the platform's `char` is signed. Cursors are indices; a buffer given with a
  length is an array of at least that many elements.
 */
module NativeStrings {
  import opened UtfCodePoints
  import opened UtfConversion
  import opened Sequences

  const INT_MAX := 0x7FFF_FFFF

  lemma DecodeStep(signedChar: bool, b: seq<Byte>, i: nat)
    requires i < |b|
    ensures var n := Utf8CodePointLen(b[i]);
            && (Chunked(b[i..]) <==> i + n <= |b| && Chunked(b[i + n..]))
            && (Chunked(b[i..]) ==>
                  Decode(signedChar, b[i..])
                  == UnitsOf(FirstCodePoint(signedChar, b[i..])) + Decode(signedChar, b[i + n..]))
  {
    var n := Utf8CodePointLen(b[i]);
    if i + n <= |b| {
      assert b[i..][n..] == b[i + n..];
    }
  }

  /** The length pass: the number of units decoding produces, -1 when some character is cut short. */
  method Utf8ToUtf16Length(signedChar: bool, str8: seq<Byte>) returns (utf16len: int)
    ensures utf16len == if Chunked(str8) then |Decode(signedChar, str8)| else -1
  {
    hide FirstCodePoint, UnitsOf, LeadByteBits, Utf8CodePointLen, Decode, Chunked;
    var cur: nat := 0;
    utf16len := 0;
    assert str8[0..] == str8;
    while cur < |str8|
      invariant cur <= |str8| && utf16len >= 0
      invariant Chunked(str8) <==> Chunked(str8[cur..])
      invariant Chunked(str8) ==>
                  utf16len + |Decode(signedChar, str8[cur..])| == |Decode(signedChar, str8)|
    {
      DecodeStep(signedChar, str8, cur);
      utf16len := utf16len + 1;
      var u8charlen := Utf8CodePointLen(str8[cur]);
      if cur + u8charlen - 1 >= |str8| {
        return -1;
      }
      var codepoint := FirstCodePoint(signedChar, str8[cur..]);
      if codepoint > 0xFFFF {
        utf16len := utf16len + 1;
      }
      cur := cur + u8charlen;
    }
    NothingToDecode(signedChar, str8, cur);
  }

  lemma NothingToDecode(signedChar: bool, b: seq<Byte>, i: nat)
    requires i == |b|
    ensures Chunked(b[i..]) && Decode(signedChar, b[i..]) == []
  {
  }

  /** The body of the conversion loop: store the units of one code point, as far as there is room. */
  method StoreCodePoint(codepoint: CodePoint, u16str: array<Unit>, u16cur: nat, u16end: nat) returns (stored: nat)
    requires u16cur < u16end <= u16str.Length
    modifies u16str
    ensures stored == Min(|UnitsOf(codepoint)|, u16end - u16cur)
    ensures u16str[..u16cur] == old(u16str[..u16cur])
    ensures u16str[u16cur..u16cur + stored] == UnitsOf(codepoint)[..stored]
    ensures u16str[u16cur + stored..] == old(u16str[u16cur + stored..])
  {
    if codepoint <= 0xFFFF {
      u16str[u16cur] := codepoint as Unit;
      return 1;
    }
    u16str[u16cur] := HighUnit(codepoint);
    if u16cur + 1 >= u16end {
      return 1;
    }
    u16str[u16cur + 1] := LowUnit(codepoint);
    return 2;
  }

  // ----- Filling a buffer from the front -----

  /** `out` elements of the result `full` are stored and `rest` is to come; nothing else has changed. */
  ghost predicate Stored<T>(full: seq<T>, before: seq<T>, now: seq<T>, out: nat, rest: seq<T>) {
    && out <= |full| && out <= |before| == |now|
    && full == now[..out] + rest
    && now[out..] == before[out..]
  }

  lemma StoreStart<T>(full: seq<T>, before: seq<T>)
    ensures Stored(full, before, before, 0, full)
  {
  }

  lemma StoreStep<T>(full: seq<T>, before: seq<T>, now: seq<T>, out: nat, rest: seq<T>,
                     first: seq<T>, rest': seq<T>, now': seq<T>)
    requires Stored(full, before, now, out, rest) && rest == first + rest'
    requires |now'| == |now| && out + |first| <= |now|
    requires now'[..out] == now[..out] && now'[out..out + |first|] == first
    requires now'[out + |first|..] == now[out + |first|..]
    ensures Stored(full, before, now', out + |first|, rest')
  {
    var next := out + |first|;
    assert now'[..next] == now[..out] + first;
    assert now'[next..] == now[out..][|first|..] == before[next..];
  }

  lemma StoreDone<T>(full: seq<T>, before: seq<T>, now: seq<T>, out: nat)
    requires Stored(full, before, now, out, [])
    ensures out == |full| <= |before| && now == full + before[out..]
  {
    assert now[..out] + [] == now[..out];
    assert now == now[..out] + now[out..];
  }

  // ----- The conversion pass -----

  /** The state of the conversion loop: `cur` bytes are read, `out` units stored. */
  ghost predicate Converting(signedChar: bool, b: seq<Byte>, room: nat, before: seq<Unit>, cur: nat, out: nat,
                             now: seq<Unit>)
    requires Readable(signedChar, b, room)
  {
    && cur <= |b| && out <= room <= |before| == |now| && Readable(signedChar, b[cur..], room - out)
    && Stored(DecodeInto(signedChar, b, room), before, now, out, DecodeInto(signedChar, b[cur..], room - out))
    && WholeUnits(signedChar, b, room) == out + WholeUnits(signedChar, b[cur..], room - out)
  }

  /** What the conversion leaves behind, and where it says its last whole character ended. */
  ghost predicate Converted(signedChar: bool, b: seq<Byte>, room: nat, before: seq<Unit>, end: nat, now: seq<Unit>)
    requires Readable(signedChar, b, room)
  {
    var stored := DecodeInto(signedChar, b, room);
    |stored| <= |before| && now == stored + before[|stored|..] && end == WholeUnits(signedChar, b, room)
  }

  lemma ConvertStart(signedChar: bool, b: seq<Byte>, room: nat, before: seq<Unit>)
    requires Readable(signedChar, b, room) && room <= |before|
    ensures Converting(signedChar, b, room, before, 0, 0, before)
  {
    assert b[0..] == b;
    StoreStart(DecodeInto(signedChar, b, room), before);
  }

  /** The next character, when there is one and room for it, is complete; storing it leads on to the rest. */
  lemma ReadStep(signedChar: bool, b: seq<Byte>, cur: nat, room: nat)
    requires cur < |b| && room > 0 && Readable(signedChar, b[cur..], room)
    ensures Utf8CodePointLen(b[cur]) <= |b[cur..]|
    ensures var first, next := UnitsOf(FirstCodePoint(signedChar, b[cur..])), cur + Utf8CodePointLen(b[cur]);
            var stored, whole := DecodeInto(signedChar, b[cur..], room), WholeUnits(signedChar, b[cur..], room);
            if |first| > room then stored == first[..room] && whole == 0
            else && Readable(signedChar, b[next..], room - |first|)
                 && stored == first + DecodeInto(signedChar, b[next..], room - |first|)
                 && whole == |first| + WholeUnits(signedChar, b[next..], room - |first|)
  {
    hide UnitsOf, FirstCodePoint, Utf8CodePointLen, Chunked;
    if Utf8CodePointLen(b[cur]) <= |b[cur..]| {
      assert b[cur..][Utf8CodePointLen(b[cur])..] == b[cur + Utf8CodePointLen(b[cur])..];
    }
  }

  /** The whole character fitted: the loop goes on. */
  lemma ConvertWhole(signedChar: bool, b: seq<Byte>, room: nat, before: seq<Unit>, cur: nat, out: nat, now: seq<Unit>,
                     first: seq<Unit>, now': seq<Unit>)
    requires Readable(signedChar, b, room) && Converting(signedChar, b, room, before, cur, out, now)
    requires cur < |b| && out < room && Utf8CodePointLen(b[cur]) <= |b[cur..]|
    requires first == UnitsOf(FirstCodePoint(signedChar, b[cur..])) && |first| <= room - out
    requires |now'| == |now| && now'[..out] == now[..out] && now'[out..out + |first|] == first
    requires now'[out + |first|..] == now[out + |first|..]
    ensures Converting(signedChar, b, room, before, cur + Utf8CodePointLen(b[cur]), out + |first|, now')
  {
    hide UnitsOf, FirstCodePoint, Stored, Utf8CodePointLen, DecodeInto, WholeUnits, Readable;
    ReadStep(signedChar, b, cur, room - out);
    var next := cur + Utf8CodePointLen(b[cur]);
    StoreStep(DecodeInto(signedChar, b, room), before, now, out, DecodeInto(signedChar, b[cur..], room - out), first,
              DecodeInto(signedChar, b[next..], room - out - |first|), now');
  }

  /** Only half of it fitted: the loop is over. */
  lemma ConvertHalf(signedChar: bool, b: seq<Byte>, room: nat, before: seq<Unit>, cur: nat, out: nat, now: seq<Unit>,
                    first: seq<Unit>, now': seq<Unit>)
    requires Readable(signedChar, b, room) && Converting(signedChar, b, room, before, cur, out, now)
    requires cur < |b| && out < room && Utf8CodePointLen(b[cur]) <= |b[cur..]|
    requires first == UnitsOf(FirstCodePoint(signedChar, b[cur..])) && |first| > room - out
    requires |now'| == |now| && now'[..out] == now[..out] && now'[out..room] == first[..room - out]
    requires now'[room..] == now[room..]
    ensures Converted(signedChar, b, room, before, out, now')
  {
    hide UnitsOf, FirstCodePoint, Stored, Utf8CodePointLen, DecodeInto, WholeUnits, Readable;
    ReadStep(signedChar, b, cur, room - out);
    var full, rest := DecodeInto(signedChar, b, room), DecodeInto(signedChar, b[cur..], room - out);
    assert rest + [] == rest;
    StoreStep(full, before, now, out, rest, rest, [], now');
    StoreDone(full, before, now', room);
  }

  lemma ConvertDone(signedChar: bool, b: seq<Byte>, room: nat, before: seq<Unit>, cur: nat, out: nat, now: seq<Unit>)
    requires Readable(signedChar, b, room) && Converting(signedChar, b, room, before, cur, out, now)
    requires cur >= |b| || out == room
    ensures Converted(signedChar, b, room, before, out, now)
  {
    hide UnitsOf, FirstCodePoint, Utf8CodePointLen, Stored;
    StoreDone(DecodeInto(signedChar, b, room), before, now, out);
  }

  lemma ConvertBounds(signedChar: bool, b: seq<Byte>, room: nat, before: seq<Unit>, cur: nat, out: nat, now: seq<Unit>)
    requires Readable(signedChar, b, room) && Converting(signedChar, b, room, before, cur, out, now)
    requires cur < |b| && out < room
    ensures Utf8CodePointLen(b[cur]) <= |b[cur..]|
  {
    hide Stored, UnitsOf, FirstCodePoint;
  }

  /**
    The conversion pass. It stores units until the input ends or only the last place is left, whether or not
    that splits a pair, and returns where the last whole character ended. It needs what it reads to be there.
   */
  method Utf8ToUtf16(signedChar: bool, utf8Str: seq<Byte>, u16str: array<Unit>, u16len: nat) returns (end: nat)
    requires u16len <= u16str.Length && (u16len > 0 ==> Readable(signedChar, utf8Str, u16len - 1))
    modifies u16str
    ensures u16len == 0 ==> end == 0 && u16str[..] == old(u16str[..])
    ensures u16len > 0 ==> Converted(signedChar, utf8Str, u16len - 1, old(u16str[..]), end, u16str[..])
  {
    hide Converting, Converted, UnitsOf, FirstCodePoint, Utf8CodePointLen, Readable;
    if u16len == 0 {
      return 0;
    }
    var room: nat := u16len - 1;
    ghost var before := u16str[..];
    var cur: nat, out: nat := 0, 0;
    ConvertStart(signedChar, utf8Str, room, before);
    while cur < |utf8Str| && out < room
      invariant out <= room && Converting(signedChar, utf8Str, room, before, cur, out, u16str[..])
    {
      ConvertBounds(signedChar, utf8Str, room, before, cur, out, u16str[..]);
      var codepoint := FirstCodePoint(signedChar, utf8Str[cur..]);
      ghost var now := u16str[..];
      var stored := StoreCodePoint(codepoint, u16str, out, room);
      if stored < |UnitsOf(codepoint)| {
        ConvertHalf(signedChar, utf8Str, room, before, cur, out, now, UnitsOf(codepoint), u16str[..]);
        return out;
      }
      ConvertWhole(signedChar, utf8Str, room, before, cur, out, now, UnitsOf(codepoint), u16str[..]);
      out := out + stored;
      cur := cur + Utf8CodePointLen(utf8Str[cur]);
    }
    ConvertDone(signedChar, utf8Str, room, before, cur, out, u16str[..]);
    return out;
  }

  /** Theorem. With room for what the length pass counts, everything is stored and nothing else touched. */
  lemma EnoughRoom(signedChar: bool, b: seq<Byte>, room: nat, before: seq<Unit>, end: nat, now: seq<Unit>)
    requires Chunked(b) && Converted(signedChar, b, room, before, end, now) && |Decode(signedChar, b)| <= room
    ensures end == |Decode(signedChar, b)| <= |before| && now == Decode(signedChar, b) + before[end..]
  {
    hide Decode, WholeUnits, DecodeInto, Readable;
    DecodeIntoIsPrefix(signedChar, b, room);
    CutSplitsAtMostOnePair(signedChar, b, room);
  }

  /**
    Theorem. With less room the buffer holds the first `room` units, and the position returned falls
    short of them by at most one: the first half of a character that takes two units. In grammatical
    input that is the case exactly when the last unit stored is a high surrogate.
   */
  lemma CutShort(signedChar: bool, b: seq<Byte>, room: nat, before: seq<Unit>, end: nat, now: seq<Unit>)
    requires Chunked(b) && Converted(signedChar, b, room, before, end, now) && |Decode(signedChar, b)| > room
    ensures room <= |before| && now == Decode(signedChar, b)[..room] + before[room..]
    ensures end == room || end + 1 == room
    ensures WellFormed(b) && room > 0 ==> (end + 1 == room <==> IsHigh(now[room - 1]))
  {
    hide Decode, DecodeInto, Readable;
    DecodeIntoIsPrefix(signedChar, b, room);
    CutSplitsAtMostOnePair(signedChar, b, room);
    if WellFormed(b) && room > 0 {
      CutSplitsPair(signedChar, b, room);
    }
  }

  // ----- JerryScript: UTF-16 to UTF-8 -----

  lemma EncodeStep(u: seq<Unit>, i: nat)
    requires i < |u|
    ensures FrontLength(u[i..]) == if PairAt(u, i) then 2 else 1
    ensures Encode(u[i..]) == EncodeCodePoint(CodePointAt(u, i)) + Encode(u[i + FrontLength(u[i..])..])
  {
    assert u[i..][FrontLength(u[i..])..] == u[i + FrontLength(u[i..])..];
  }

  /** The code point read at `i`: a surrogate pair combined, or the unit alone. */
  function CodePointAt(u: seq<Unit>, i: nat): CodePoint
    requires i < |u|
  {
    if PairAt(u, i) then Combine(u[i], u[i + 1]) else u[i] as CodePoint
  }

  lemma PairTakesFour(u: seq<Unit>, i: nat)
    requires PairAt(u, i)
    ensures |EncodeCodePoint(CodePointAt(u, i))| == 4
  {
    CombineThenSplit(u[i], u[i + 1]);
  }

  lemma NothingToEncode(u: seq<Unit>, i: nat)
    requires i == |u|
    ensures Encode(u[i..]) == []
  {
  }

  /** The length pass: the size of the encoding, -1 for an empty string and where `int` is too small. */
  method Utf16ToUtf8Length(str16: seq<Unit>) returns (utf8Len: int)
    ensures utf8Len == if str16 == [] || |Encode(str16)| > 2147483647 then -1 else |Encode(str16)|
  {
    hide Encode, EncodeCodePoint, Combine, PairAt, Utf32CodePointUtf8Length;
    if |str16| == 0 {
      return -1;
    }
    var cur: nat := 0;
    utf8Len := 0;
    assert str16[0..] == str16;
    while cur < |str16|
      invariant cur <= |str16| && 0 <= utf8Len <= INT_MAX
      invariant utf8Len + |Encode(str16[cur..])| == |Encode(str16)|
    {
      EncodeStep(str16, cur);
      var charLen: nat;
      if PairAt(str16, cur) {
        PairTakesFour(str16, cur);
        charLen := 4;
        cur := cur + 2;
      } else {
        charLen := Utf32CodePointUtf8Length(str16[cur] as CodePoint);
        cur := cur + 1;
      }
      if utf8Len > INT_MAX - charLen {
        return -1;
      }
      utf8Len := utf8Len + charLen;
    }
    NothingToEncode(str16, cur);
  }

  /** Write one character of a known length, last byte first. */
  method Utf32CodePointToUtf8(dst: array<Byte>, start: nat, srcChar: CodePoint, bytes: nat)
    requires bytes <= 4 && start + bytes <= dst.Length
    modifies dst
    ensures dst[..start] == old(dst[..start])
    ensures dst[start..start + bytes] == EncodeAs(srcChar, bytes)
    ensures dst[start + bytes..] == old(dst[start + bytes..])
  {
    hide TailByte, LeadByte, Shift6;
    var p, c := start + bytes, srcChar;
    if bytes >= 4 {
      p := p - 1;
      dst[p] := TailByte(c);
      c := Shift6(c);
    }
    if bytes >= 3 {
      p := p - 1;
      dst[p] := TailByte(c);
      c := Shift6(c);
    }
    if bytes >= 2 {
      p := p - 1;
      dst[p] := TailByte(c);
      c := Shift6(c);
    }
    if bytes >= 1 {
      p := p - 1;
      dst[p] := LeadByte(c, FirstByteMark(bytes));
    }
    assert p == start;
    if bytes == 4 {
      assert dst[start..start + 4] == [dst[start], dst[start + 1], dst[start + 2], dst[start + 3]];
    } else if bytes == 3 {
      assert dst[start..start + 3] == [dst[start], dst[start + 1], dst[start + 2]];
    }
  }

  function FirstByteMark(bytes: nat): CodePoint
    requires 1 <= bytes <= 4
  {
    if bytes == 1 then 0x00 else if bytes == 2 then 0xC0 else if bytes == 3 then 0xE0 else 0xF0
  }

  // ----- The encoding pass -----

  lemma EncodedLength(c: CodePoint)
    ensures EncodeCodePoint(c) == EncodeAs(c, Utf32CodePointUtf8Length(c))
  {
  }

  lemma PairFits(u: seq<Unit>, i: nat)
    requires i < |u|
    ensures PairAt(u, i) ==> i + 2 <= |u|
  {
  }

  lemma FittingStep(u: seq<Unit>, i: nat, room: nat)
    requires i < |u|
    ensures var n := if PairAt(u, i) then 2 else 1;
            var first := EncodeCodePoint(CodePointAt(u, i));
            EncodeFitting(u[i..], room)
            == if |first| > room then [] else first + EncodeFitting(u[i + n..], room - |first|)
  {
    hide EncodeCodePoint, Combine;
    assert u[i..][FrontLength(u[i..])..] == u[i + FrontLength(u[i..])..];
  }

  lemma NothingFits(u: seq<Unit>, i: nat, room: nat)
    requires i == |u|
    ensures EncodeFitting(u[i..], room) == []
  {
  }

  /**
    The conversion pass: as many whole characters as fit in `str8Len` bytes, then a terminator. The
    terminator needs a byte of its own; the caller has to have provided it.
   */
  method StrncpyStr16ToStr8(utf16Str: seq<Unit>, utf8Str: array<Byte>, str8Len: nat)
    requires str8Len <= utf8Str.Length && |EncodeFitting(utf16Str, str8Len)| < utf8Str.Length
    modifies utf8Str
    ensures var fit := EncodeFitting(utf16Str, str8Len);
            utf8Str[..] == fit + [0] + old(utf8Str[..])[|fit| + 1..]
  {
    hide EncodeFitting, EncodeCodePoint, EncodeAs, Combine, PairAt, Stored, CodePointAt, Utf32CodePointUtf8Length;
    ghost var full, before := EncodeFitting(utf16Str, str8Len), utf8Str[..];
    var curUtf16: nat, cur: nat, room: nat := 0, 0, str8Len;
    ghost var rest := full;
    assert utf16Str[0..] == utf16Str;
    StoreStart(full, before);
    while curUtf16 < |utf16Str|
      invariant curUtf16 <= |utf16Str| && cur + room == str8Len
      invariant rest == EncodeFitting(utf16Str[curUtf16..], room)
      invariant Stored(full, before, utf8Str[..], cur, rest)
    {
      FittingStep(utf16Str, curUtf16, room);
      var utf32 := CodePointAt(utf16Str, curUtf16);
      var len := Utf32CodePointUtf8Length(utf32);
      if room < len {
        break;
      }
      PairFits(utf16Str, curUtf16);
      var next: nat := if PairAt(utf16Str, curUtf16) then curUtf16 + 2 else curUtf16 + 1;
      ghost var now, rest' := utf8Str[..], EncodeFitting(utf16Str[next..], room - len);
      EncodedLength(utf32);
      Utf32CodePointToUtf8(utf8Str, cur, utf32, len);
      StoreStep(full, before, now, cur, rest, EncodeCodePoint(utf32), rest', utf8Str[..]);
      curUtf16, cur, room, rest := next, cur + len, room - len, rest';
    }
    if curUtf16 == |utf16Str| {
      NothingFits(utf16Str, curUtf16, room);
    }
    StoreDone(full, before, utf8Str[..], cur);
    utf8Str[cur] := 0;
  }

  /**
    Measure, allocate, convert: a fresh buffer of exactly the encoding and its terminator, or null where
    the length pass or the allocation fails. The source adds one to an `int` length before allocating.
   */
  method Char16ToChar8(str16: seq<Unit>, allocates: bool) returns (str8: array?<Byte>)
    requires |Encode(str16)| != 2147483647
    ensures str8 == null <==> str16 == [] || |Encode(str16)| > 2147483647 || !allocates
    ensures str8 != null ==> fresh(str8) && str8[..] == Encode(str16) + [0]
  {
    hide Encode, EncodeFitting;
    var utf8Len := Utf16ToUtf8Length(str16);
    if utf8Len < 0 {
      return null;
    }
    utf8Len := utf8Len + 1;
    if !allocates {
      return null;
    }
    str8 := new Byte[utf8Len](_ => 0);
    FittingIsPrefix(str16, utf8Len);
    StrncpyStr16ToStr8(str16, str8, utf8Len);
    return str8;
  }

  /** Theorem. With exactly the measured length and one byte more, the encoding pass writes everything. */
  lemma LengthPassSuffices(u: seq<Unit>, room: nat)
    ensures EncodeFitting(u, room) == Encode(u) <==> |Encode(u)| <= room
    ensures |EncodeFitting(u, |Encode(u)| + 1)| < |Encode(u)| + 1
    ensures |EncodeFitting(u, |Encode(u)|)| == |Encode(u)|
  {
    hide Encode, EncodeFitting, WellFormed;
    FittingIsPrefix(u, room);
    FittingIsPrefix(u, |Encode(u)| + 1);
    FittingIsPrefix(u, |Encode(u)|);
  }

  // ----- QuickJS: reading a string into a caller's buffer -----

  /** `strlen`: the bytes before the first zero, all of them when there is none before the terminator. */
  function CString(bytes: seq<Byte>): (s: seq<Byte>)
    ensures s <= bytes && 0 !in s
    ensures s == bytes || bytes[|s|] == 0
  {
    if bytes == [] || bytes[0] == 0 then [] else [bytes[0]] + CString(bytes[1..])
  }

  /** What `GetCString16` leaves in its buffer: the first units that fit before the last one, then zeros. */
  ghost predicate TruncatedCopy(full: seq<Unit>, size: nat, before: seq<Unit>, now: seq<Unit>)
    requires |before| == |now| && size <= |before|
  {
    && now[size..] == before[size..]
    && (forall i :: 0 <= i < size ==> now[i] == if i < |full| && i < size - 1 then full[i] else 0)
  }

  lemma TruncatedCopyOf(signedChar: bool, b: seq<Byte>, size: nat, before: seq<Unit>, zeroed: seq<Unit>, end: nat,
                        now: seq<Unit>)
    requires Chunked(b) && 0 < size <= |before| == |zeroed|
    requires zeroed[size..] == before[size..] && forall i :: 0 <= i < size ==> zeroed[i] == 0
    requires Converted(signedChar, b, size - 1, zeroed, end, now)
    ensures |now| == |before| && TruncatedCopy(Decode(signedChar, b), size, before, now)
  {
    hide Decode, DecodeInto, Readable, WholeUnits;
    DecodeIntoIsPrefix(signedChar, b, size - 1);
    assert now[size..] == zeroed[size..];
  }

  /** What the engine gives for the string: its bytes and their number, or nothing but a number. */
  datatype EngineString = NoString(count: nat) | Bytes(bytes: seq<Byte>)

  /** The bytes up to the first zero, where the engine gives any. */
  function Text(str: EngineString): seq<Byte> {
    match str
    case NoString(_) => []
    case Bytes(bytes) => CString(bytes)
  }

  /**
    `GetCString16`. Without a place for the length it does nothing; without a buffer it only measures. Where
    the engine gives no string, or malformed bytes, the length is the count that the engine stored, and the
    buffer is untouched.
   */
  method GetCString16(signedChar: bool, str: EngineString, wantsLength: bool, buffer: array?<Unit>, size: nat)
    returns (length: nat)
    requires buffer != null ==> size <= buffer.Length
    modifies if buffer == null then {} else {buffer}
    ensures wantsLength ==>
              length == match str
                        case NoString(count) => count
                        case Bytes(bytes) => if Chunked(Text(str)) then |Decode(signedChar, Text(str))| else |bytes|
    ensures buffer != null && !(wantsLength && str.Bytes? && Chunked(Text(str))) ==> buffer[..] == old(buffer[..])
    ensures buffer != null && wantsLength && str.Bytes? && Chunked(Text(str)) ==>
              TruncatedCopy(Decode(signedChar, Text(str)), size, old(buffer[..]), buffer[..])
  {
    hide Decode, Chunked, WholeUnits, Converted, Readable;
    length := if str.Bytes? then |str.bytes| else str.count;
    if str.NoString? {
      return;
    }
    if wantsLength {
      var text := CString(str.bytes);
      var ret := Utf8ToUtf16Length(signedChar, text);
      if ret == -1 {
        return;
      }
      length := ret;
      if buffer != null {
        ghost var before := buffer[..];
        forall i | 0 <= i < size {
          buffer[i] := 0;
        }
        ghost var zeroed := buffer[..];
        ChunkedIsReadable(signedChar, text, size);
        var end := Utf8ToUtf16(signedChar, text, buffer, size);
        if size > 0 {
          TruncatedCopyOf(signedChar, text, size, before, zeroed, end, buffer[..]);
        }
      }
    }
  }

  lemma ChunkedIsReadable(signedChar: bool, b: seq<Byte>, size: nat)
    requires Chunked(b)
    ensures size > 0 ==> Readable(signedChar, b, size - 1)
  {
  }
}
