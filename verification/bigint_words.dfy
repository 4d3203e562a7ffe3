/**
  BigInts as arrays of 64-bit words, least significant first: the two scripts that `quickjs_ext.cpp`
  evaluates, with the native code that feeds and reads them.
 */
module BigIntWords {
  const TWO_32 := 0x1_0000_0000
  const TWO_64 := 0x1_0000_0000_0000_0000
  const MAX_WORDS := 20

  type Word = w: int | 0 <= w < TWO_64

  datatype Option<T> = None | Some(value: T)

  // ----- The radix: BigInt(2 ** 64 - 1) -----

  function Pow2(e: nat): nat {
    if e == 0 then 1 else 2 * Pow2(e - 1)
  }

  /** A non-negative integer that a Number holds exactly: 53 significant bits. */
  ghost predicate IsNumber(x: nat) {
    exists m: nat, e: nat :: m < 0x20_0000_0000_0000 && x == Scaled(m, e)
  }

  function Scaled(m: nat, e: nat): nat {
    m * Pow2(e)
  }

  lemma SmallPowers()
    ensures Pow2(10) == 1024 && Pow2(11) == 2048 && Pow2(12) == 4096
  {
    assert Pow2(4) == 16;
    assert Pow2(8) == 256;
  }

  lemma {:induction false} LargePowers(e: nat)
    ensures e < 11 ==> Pow2(e) <= 1024
    ensures e >= 11 ==> Pow2(e) % 2048 == 0
  {
    SmallPowers();
    if e > 11 {
      LargePowers(e - 1);
      Multiple(2, Pow2(e - 1));
    } else if e < 10 {
      Pow2Grows(e, 10);
    }
  }

  lemma {:induction false} Pow2Grows(e: nat, f: nat)
    requires e <= f
    ensures Pow2(e) <= Pow2(f)
  {
    if e < f {
      Pow2Grows(e, f - 1);
    }
  }

  lemma Multiple(m: nat, p: nat)
    requires p % 2048 == 0
    ensures (m * p) % 2048 == 0
  {
    assert m * p == m * (p / 2048) * 2048;
  }

  lemma AtMost(m: nat, p: nat)
    requires p <= 1024
    ensures m * p <= m * 1024
  {
  }

  lemma RadixIsNumber()
    ensures IsNumber(TWO_64)
  {
    SmallPowers();
    assert Scaled(0x10_0000_0000_0000, 12) == TWO_64;
  }

  /** 2^64 is a Number, and no other Number is as near to 2^64 - 1: the subtraction in the scripts rounds to it. */
  lemma RadixRoundsUp(x: nat)
    requires IsNumber(x) && TWO_64 - 2 <= x <= TWO_64
    ensures x == TWO_64 && IsNumber(TWO_64)
  {
    RadixIsNumber();
    var m: nat, e: nat :| m < 0x20_0000_0000_0000 && x == Scaled(m, e);
    LargePowers(e);
    if e < 11 {
      AtMost(m, Pow2(e));
    } else {
      Multiple(m, Pow2(e));
    }
  }

  // ----- Positional value -----

  function Value(words: seq<Word>): nat {
    if words == [] then 0 else words[0] + TWO_64 * Value(words[1..])
  }

  function Pow(i: nat): nat {
    if i == 0 then 1 else TWO_64 * Pow(i - 1)
  }

  lemma Distribute(v: nat, w: nat, p: nat)
    ensures TWO_64 * (v + w * p) == TWO_64 * v + w * (TWO_64 * p)
  {
  }

  lemma {:induction false} ValueAppend(words: seq<Word>, w: Word)
    ensures Value(words + [w]) == Value(words) + w * Pow(|words|)
  {
    if words == [] {
      assert [w][1..] == [];
    } else {
      var rest := words[1..];
      assert (words + [w])[1..] == rest + [w];
      ValueAppend(rest, w);
      Distribute(Value(rest), w, Pow(|rest|));
    }
  }

  /** The words of `n`, least significant first, at least one. */
  function Digits(n: nat): (words: seq<Word>)
    ensures words != []
  {
    if n < TWO_64 then [n] else [n % TWO_64] + Digits(n / TWO_64)
  }

  lemma {:induction false} DigitsValue(n: nat)
    ensures Value(Digits(n)) == n
    ensures |Digits(n)| > 1 ==> Digits(n)[|Digits(n)| - 1] != 0
  {
    if n < TWO_64 {
      assert [n][1..] == [];
    } else {
      DigitsValue(n / TWO_64);
      assert Digits(n)[1..] == Digits(n / TWO_64);
    }
  }

  /** Without its most significant zero words, but for one. */
  function Stripped(words: seq<Word>): seq<Word>
    requires words != []
  {
    if |words| > 1 && words[|words| - 1] == 0 then Stripped(words[..|words| - 1]) else words
  }

  lemma {:induction false} StrippedValue(words: seq<Word>)
    requires words != []
    ensures Value(Stripped(words)) == Value(words)
  {
    if |words| > 1 && words[|words| - 1] == 0 {
      var front := words[..|words| - 1];
      StrippedValue(front);
      ValueAppend(front, 0);
      assert words == front + [0];
    }
  }

  lemma {:induction false} ValuePositive(words: seq<Word>)
    requires words != [] && words[|words| - 1] != 0
    ensures Value(words) > 0
  {
    if |words| > 1 {
      ValuePositive(words[1..]);
    }
  }

  /** Words without a most significant zero are the words of their value. */
  lemma {:induction false} DigitsUnique(words: seq<Word>)
    requires words != [] && (|words| > 1 ==> words[|words| - 1] != 0)
    ensures Digits(Value(words)) == words
  {
    if |words| > 1 {
      var rest := words[1..];
      ValuePositive(rest);
      DigitsUnique(rest);
      assert words == [words[0]] + rest;
    } else {
      assert words == [words[0]];
    }
  }

  lemma {:induction false} StrippedHasNoLeadingZero(words: seq<Word>)
    requires words != []
    ensures Stripped(words) != [] && (|Stripped(words)| > 1 ==> Stripped(words)[|Stripped(words)| - 1] != 0)
  {
    if |words| > 1 && words[|words| - 1] == 0 {
      StrippedHasNoLeadingZero(words[..|words| - 1]);
    }
  }

  /** Theorem. Encoding words and decoding the value gives the words back without superfluous zeros. */
  lemma WordsRoundTrip(words: seq<Word>)
    requires words != []
    ensures Digits(Value(words)) == Stripped(words)
  {
    StrippedValue(words);
    StrippedHasNoLeadingZero(words);
    DigitsUnique(Stripped(words));
  }

  // ----- JS_CreateBigIntWords -----

  /** Only the parity of the sign counts; the source takes it on an unsigned conversion. */
  function IsNegative(signBit: int): bool {
    signBit % 2 != 0
  }

  function Signed(negative: bool, magnitude: int): int {
    if negative then -magnitude else magnitude
  }

  function Magnitude(value: int): nat {
    if value < 0 then -value else value
  }

  /** Each word goes to the script as its high half, then its low half. */
  predicate Halves(words: seq<Word>, halves: seq<int>) {
    && |halves| == 2 * |words|
    && forall i {:trigger words[i]} :: 0 <= i < |words| ==>
         halves[2 * i] == words[i] / TWO_32 && halves[2 * i + 1] == words[i] % TWO_32
  }

  method SplitWords(words: seq<Word>) returns (halves: seq<int>)
    ensures Halves(words, halves)
  {
    halves := [];
    for i := 0 to |words|
      invariant Halves(words[..i], halves)
    {
      ghost var before := halves;
      halves := halves + [words[i] / TWO_32] + [words[i] % TWO_32];
      HalvesAppend(words[..i], before, words[i], halves);
      assert words[..i + 1] == words[..i] + [words[i]];
    }
    assert words[..|words|] == words;
  }

  lemma HalvesAppend(words: seq<Word>, halves: seq<int>, w: Word, halves': seq<int>)
    requires Halves(words, halves) && halves' == halves + [w / TWO_32] + [w % TWO_32]
    ensures Halves(words + [w], halves')
  {
  }

  lemma HalvesLength(words: seq<Word>, halves: seq<int>)
    requires Halves(words, halves)
    ensures |halves| / 2 == |words| && Value(words[..0]) == 0
  {
  }

  lemma HalvesJoin(words: seq<Word>, halves: seq<int>, i: nat)
    requires Halves(words, halves) && i < |words|
    ensures 2 * i + 1 < |halves| && halves[i * 2] * TWO_32 + halves[i * 2 + 1] == words[i]
  {
    var w := words[i];
    assert halves[2 * i] == w / TWO_32 && halves[2 * i + 1] == w % TWO_32;
  }

  /** The encoding script: the sum of the words, each times its power of the radix, then the sign. */
  method EncodeScript(negative: bool, word: seq<int>, ghost words: seq<Word>) returns (bg: int)
    requires Halves(words, word)
    ensures bg == Signed(negative, Value(words))
  {
    hide Value, Pow, Halves;
    bg := 0;
    var i: nat := 0;
    HalvesLength(words, word);
    while i < |word| / 2
      invariant i <= |words| && bg == Value(words[..i])
    {
      ghost var w := words[i];
      assert words[..i + 1] == words[..i] + [w];
      ValueAppend(words[..i], w);
      HalvesJoin(words, word, i);
      bg := bg + (word[i * 2] * TWO_32 + word[i * 2 + 1]) * Pow(i);
      i := i + 1;
    }
    assert words[..|words|] == words;
    if negative {
      bg := bg * (-1);
    }
  }

  method CreateBigIntWords(signBit: int, words: seq<Word>) returns (r: Option<int>)
    ensures r == if 1 <= |words| <= 20 then Some(Signed(signBit % 2 == 1, Value(words))) else None
  {
    if |words| == 0 || |words| > MAX_WORDS {
      return None;
    }
    var halves := SplitWords(words);
    var bg := EncodeScript(IsNegative(signBit), halves, words);
    return Some(bg);
  }

  // ----- JS_GetBigIntWords -----

  lemma DigitsStep(words: seq<Word>, big: nat)
    requires big >= TWO_64
    ensures words + Digits(big) == words + [big % TWO_64] + Digits(big / TWO_64)
  {
  }

  /** The decoding script: the sign, then the words by repeated division. */
  method DecodeScript(value: int) returns (sign: nat, words: seq<Word>)
    ensures sign == if value < 0 then 1 else 0
    ensures words == Digits(Magnitude(value))
  {
    sign := 0;
    words := [];
    var big := value;
    if big < 0 {
      sign := 1;
      big := big * (-1);
    }
    hide Digits;
    while big >= TWO_64
      invariant big >= 0 && words + Digits(big) == Digits(Magnitude(value))
      decreases big
    {
      DigitsStep(words, big);
      words := words + [big % TWO_64];
      big := big / TWO_64;
    }
    DigitsEnd(big);
    words := words + [big % TWO_64];
  }

  lemma DigitsEnd(big: nat)
    requires big < TWO_64
    ensures Digits(big) == [big % TWO_64]
  {
  }

  /** A BigInt element read as int64: modulo 2^64, the upper half negative. */
  function ToInt64(n: int): int {
    if n % TWO_64 < TWO_64 / 2 then n % TWO_64 else n % TWO_64 - TWO_64
  }

  function ToUint64(n: int): Word {
    n % TWO_64
  }

  lemma Int64RoundTrip(w: Word)
    ensures ToUint64(ToInt64(w)) == w
  {
  }

  datatype Parsed = Refused | Count(count: nat) | Filled(sign: nat, words: seq<Word>)

  /**
    What the caller gets from the script's object: only the count when it passes neither output, sign and
    the low-order words that fit its array when it passes both, nothing when it passes one.
   */
  method ParseBigIntWords(sign: nat, words: seq<Word>, wantsSign: bool, wantsWords: bool, capacity: nat)
    returns (r: Parsed)
    ensures !wantsSign && !wantsWords ==> r == Count(|words|)
    ensures wantsSign && wantsWords ==> r == Filled(sign, words[..if |words| > capacity then capacity else |words|])
    ensures wantsSign != wantsWords ==> r == Refused
  {
    if !wantsSign && !wantsWords {
      return Count(|words|);
    } else if wantsSign && wantsWords {
      var cntValue := if |words| > capacity then capacity else |words|;
      var buffer := new Word[cntValue](_ => 0);
      for i := 0 to cntValue
        invariant buffer[..i] == words[..i]
      {
        Int64RoundTrip(words[i]);
        var cValue := ToInt64(words[i]);
        buffer[i] := ToUint64(cValue);
      }
      return Filled(sign, buffer[..]);
    }
    return Refused;
  }

  method GetBigIntWords(value: int, wantsSign: bool, wantsWords: bool, capacity: nat) returns (r: Parsed)
    ensures var sign, words := if value < 0 then 1 else 0, Digits(Magnitude(value));
            && (!wantsSign && !wantsWords ==> r == Count(|words|))
            && (wantsSign && wantsWords ==>
                  r == Filled(sign, words[..if |words| > capacity then capacity else |words|]))
            && (wantsSign != wantsWords ==> r == Refused)
  {
    var sign, words := DecodeScript(value);
    r := ParseBigIntWords(sign, words, wantsSign, wantsWords, capacity);
  }

  // ----- Round trips -----

  /**
    Theorem. What `JS_CreateBigIntWords` makes of a sign and words decodes to the same words without
    superfluous zeros, and to the same sign unless the value is zero.
   */
  lemma CreateThenGet(signBit: int, words: seq<Word>)
    requires words != []
    ensures var value := Signed(IsNegative(signBit), Value(words));
            && Digits(Magnitude(value)) == Stripped(words)
            && (value < 0 <==> IsNegative(signBit) && Stripped(words) != [0])
  {
    hide Stripped;
    WordsRoundTrip(words);
    StrippedValue(words);
    if Stripped(words) == [0] {
      assert Value([0]) == 0 + TWO_64 * Value([][..]);
    }
  }

  /** Theorem. A value read into words and created again is itself; creation refuses exactly those past 20 words. */
  lemma GetThenCreate(value: int)
    ensures var sign, words := if value < 0 then 1 else 0, Digits(Magnitude(value));
            Signed(IsNegative(sign), Value(words)) == value
    ensures |Digits(Magnitude(value))| <= 20 <==> Magnitude(value) < Pow(20)
  {
    hide Pow, Digits, Value;
    DigitsValue(Magnitude(value));
    DigitsLength(Magnitude(value), MAX_WORDS);
  }

  lemma {:induction false} DigitsLength(n: nat, k: nat)
    requires k > 0
    ensures |Digits(n)| <= k <==> n < Pow(k)
  {
    if n >= TWO_64 && k > 1 {
      DigitsLength(n / TWO_64, k - 1);
    } else if k > 1 {
      PowPositive(k - 1);
    }
  }

  lemma {:induction false} PowPositive(k: nat)
    ensures Pow(k) >= 1
  {
    if k > 0 {
      PowPositive(k - 1);
    }
  }

  /** Theorem. With too small an array the caller gets the value modulo that many powers of the radix. */
  lemma {:induction false} LowOrderWords(n: nat, k: nat)
    requires k <= |Digits(n)|
    ensures Pow(k) > 0 && Value(Digits(n)[..k]) == n % Pow(k)
  {
    PowPositive(k);
    if k == 0 {
    } else if n < TWO_64 {
      assert Digits(n)[..1] == [n] && [n][1..] == [];
    } else {
      LowOrderWords(n / TWO_64, k - 1);
      PowPositive(k - 1);
      assert Digits(n)[..k] == [n % TWO_64] + Digits(n / TWO_64)[..k - 1];
      assert Digits(n)[..k][1..] == Digits(n / TWO_64)[..k - 1];
      ModByPower(n, Pow(k - 1));
    }
  }

  lemma ModByPower(n: nat, p: nat)
    requires p > 0
    ensures n % TWO_64 + TWO_64 * (n / TWO_64 % p) == n % (TWO_64 * p)
  {
    var q, r := n / TWO_64 / p, n % TWO_64 + TWO_64 * (n / TWO_64 % p);
    assert n == TWO_64 * (n / TWO_64) + n % TWO_64;
    assert n / TWO_64 == p * q + n / TWO_64 % p;
    assert n == (TWO_64 * p) * q + r;
    RemainderIs(n, TWO_64 * p, q, r);
  }

  lemma OnlyZero(t: int, d: int)
    requires -d < d * t < d
    ensures t == 0
  {
  }

  lemma RemainderIs(n: nat, d: nat, q: nat, r: nat)
    requires d > 0 && n == d * q + r && r < d
    ensures n % d == r
  {
    var t := n / d - q;
    assert n == d * (n / d) + n % d;
    assert d * t == r - n % d;
    OnlyZero(t, d);
  }

  // ----- The same in plain numbers -----

  /** The least significant word comes first, and the radix is 2^64. */
  lemma TwoWords(low: Word, high: Word)
    ensures Value([low, high]) == low + 0x1_0000_0000_0000_0000 * high
    ensures high != 0 ==> Digits(low + 0x1_0000_0000_0000_0000 * high) == [low, high]
  {
    assert [low, high][1..] == [high] && [high][1..] == [];
    assert Value([high]) == high + TWO_64 * Value([]);
    if high != 0 {
      DigitsUnique([low, high]);
    }
  }

  /** Of the sign only the lowest bit counts: 2 is as good as 0, 3 and -1 are as good as 1. */
  lemma SignBits()
    ensures !IsNegative(0) && IsNegative(1) && !IsNegative(2) && IsNegative(3) && IsNegative(-1)
    ensures forall signBit: int :: IsNegative(signBit + 2) <==> IsNegative(signBit)
  {
  }
}
