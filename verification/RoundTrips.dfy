/** What a printer writes, its reader reads back: all of it, without overflow.
    Each round trip runs the digit counter, the printer and the reader. */
module RoundTrips {
  import opened Bytes
  import opened Words
  import opened NumberTheory
  import opened Numerals
  import opened Parsers
  import opened Dividers
  import opened GroupedReaders
  import opened Printers
  import opened TextToNumber
  import opened NumberToText

  /** A string that holds only the given digits. */
  ghost predicate Holds(text: seq<byte>, s: nat, ds: seq<nat>, base: nat) {
    && 2 <= base <= 36 && |text| == s + |ds| + 1
    && text[s..s + |ds|] == Chars(ds) && text[s + |ds|] == 0
    && forall k :: 0 <= k < |ds| ==> ds[k] < base
  }

  lemma HoldsLength(text: seq<byte>, s: nat, ds: seq<nat>, base: nat)
    requires Holds(text, s, ds, base)
    ensures |text| == s + |ds| + 1 && text[s + |ds|] == 0
  {
  }

  lemma RunOf(text: seq<byte>, s: nat, ds: seq<nat>, base: nat)
    requires Holds(text, s, ds, base)
    ensures s < |text| && Terminated(text, s)
    ensures RunEnd(text, s, base) == s + |ds| && Number(text, s, s + |ds|, base) == Value(ds, base)
  {
    NumeralReadsBack(text, s, ds, base);
  }

  /** Digit bytes are neither signs nor lower-case letters. */
  lemma CharKinds(d: nat)
    requires d < 36
    ensures CharOf(d) != MINUS && CharOf(d) != PLUS
    ensures CharOf(d) == ZERO <==> d == 0
    ensures d < 11 ==> !IsLetter(CharOf(d), LOWER_B)
    ensures d < 33 ==> !IsLetter(CharOf(d), LOWER_X)
  {
  }

  /** The NUL after the digits is no divider. */
  lemma GroupedOf(text: seq<byte>, s: nat, ds: seq<nat>, f: Format)
    requires Holds(text, s, ds, f.base)
    ensures s < |text| && GroupedEnd(text, s, f) == s + |ds|
    ensures GroupedNumber(text, s, s + |ds|, f.base) == Value(ds, f.base)
  {
    RunOf(text, s, ds, f.base);
    HoldsLength(text, s, ds, f.base);
    hide Holds, Value, Number, RunEnd, GroupedNumber, GroupedEnd;
    Undivided(text, s, f);
    UndividedNumber(text, s, s + |ds|, f.base);
  }

  /** A number that fits is read whole. */
  lemma FitsWhole(text: seq<byte>, i: nat, base: nat, r: nat, p: nat, e2big: bool)
    requires i <= |text| && base >= 1 && LongestFit(text, i, base, r, p, e2big)
    requires Number(text, i, RunEnd(text, i, base), base) < BASE
    ensures !e2big && p == RunEnd(text, i, base) && r == Number(text, i, p, base)
  {
    OverflowIsExact(text, i, base, r, p, e2big);
  }

  lemma NoWrapIfItFits(text: seq<byte>, i: nat, base: nat)
    requires i <= |text| && base >= 1 && Number(text, i, RunEnd(text, i, base), base) < BASE
    ensures !Wraps(text, i, base)
  {
    forall k | i <= k < RunEnd(text, i, base)
      ensures !WrapsAt(text, i, k, base)
    {
      NumberGrows(text, i, k + 1, RunEnd(text, i, base), base);
    }
  }

  /** The string from the start of a buffer to its NUL. */
  lemma StringOf(buffer: seq<byte>, was: seq<byte>, t: seq<byte>)
    requires |t| < |was| && buffer == Patched(was, 0, t + [0])
    ensures buffer[..|t| + 1] == t + [0]
  {
  }

  lemma HoldsChars(text: seq<byte>, ds: seq<nat>, base: nat)
    requires 2 <= base <= 36 && text == Chars(ds) + [0]
    requires forall k :: 0 <= k < |ds| ==> ds[k] < base
    ensures Holds(text, 0, ds, base)
  {
  }

  lemma AtMost64Word(n: nat, base: nat)
    requires n < BASE && base >= 2
    ensures |Digits(n, base)| <= 64
  {
    WordPower();
    AtMost64(n, base, 64);
  }

  lemma DecimalReads(dividers: bool, text: seq<byte>, s: nat, ds: seq<nat>, r: nat, p: nat, e2big: bool)
    requires Holds(text, s, ds, 10) && Value(ds, 10) < BASE && DecimalFit(dividers, text, s, r, p, e2big)
    ensures r == Value(ds, 10) && p == s + |ds| && !e2big
  {
    hide Holds, Value, DecimalFit, GroupedNumber, GroupedEnd;
    GroupedOf(text, s, ds, Format(10, dividers));
    DecimalOverflowIsExact(dividers, text, s, r, p, e2big);
    DecimalWhole(dividers, text, s, r, p, e2big);
  }

  lemma DecimalWhole(dividers: bool, text: seq<byte>, i: nat, r: nat, p: nat, e2big: bool)
    requires i <= |text| && DecimalFit(dividers, text, i, r, p, e2big) && !e2big
    ensures p == GroupedEnd(text, i, Format(10, dividers)) && r == GroupedNumber(text, i, p, 10)
  {
  }

  /** Base 10, every unsigned 64 bit number. */
  method UnsignedDecimal(dividers: bool, n: nat) returns (digits: nat, back: nat, p: nat, e2big: bool)
    requires n < BASE
    ensures back == n && p == digits && !e2big
  {
    hide Digits, Value, Chars, RunEnd, Number, Patched;
    AtMost64Word(n, 10);
    ValueOfDigits(n, 10);
    digits := Digits10u(n);
    var dest := new byte[68];
    ghost var was, ds := dest[..], Digits(n, 10);
    Ltoa10u(dest, 0, n, digits);
    StringOf(dest[..], was, Chars(ds));
    var text := dest[..digits + 1];
    HoldsChars(text, ds, 10);
    RunOf(text, 0, ds, 10);
    back, p, e2big := Atol10u(dividers, text, 0);
    DecimalReads(dividers, text, 0, ds, back, p, e2big);
  }

  lemma OctalReads(dividers: bool, text: seq<byte>, s: nat, ds: seq<nat>, r: nat, p: nat, e2big: bool)
    requires Holds(text, s, ds, 8) && Value(ds, 8) < BASE && OctalFit(dividers, text, s, r, p, e2big)
    ensures r == Value(ds, 8) && p == s + |ds| && !e2big
  {
    var f := Format(8, dividers);
    hide Holds, Value, OctalFit, GroupedNumber, GroupedEnd, FullAtDivider;
    GroupedOf(text, s, ds, f);
    NeverFullAtDivider(text, s, ds, f);
    OctalOverflowIsExact(dividers, text, s, r, p, e2big);
    OctalNumber(dividers, text, s, r, p, e2big);
  }

  lemma OctalNumber(dividers: bool, text: seq<byte>, i: nat, r: nat, p: nat, e2big: bool)
    requires i <= |text| && OctalFit(dividers, text, i, r, p, e2big)
    ensures i <= p <= |text| && r == GroupedNumber(text, i, p, 8)
  {
  }

  lemma NeverFullAtDivider(text: seq<byte>, s: nat, ds: seq<nat>, f: Format)
    requires Holds(text, s, ds, f.base)
    ensures s < |text| && !FullAtDivider(text, s, f)
  {
    RunOf(text, s, ds, f.base);
    GroupedOf(text, s, ds, f);
    hide Holds, Value, Chars, GroupedNumber, GroupedEnd, RunEnd, Number;
    forall k | s <= k < GroupedEnd(text, s, f)
      ensures !FullDividerAt(text, s, k, f)
    {
      assert IsDigit(text[k], f.base);
    }
  }

  /** Base 8. */
  method Octal(dividers: bool, n: nat) returns (digits: nat, back: nat, p: nat, e2big: bool)
    requires n < BASE
    ensures back == n && p == digits && !e2big
  {
    hide Digits, Value, Chars, RunEnd, Number, Patched;
    AtMost64Word(n, 8);
    ValueOfDigits(n, 8);
    digits := Digits8u(n);
    var dest := new byte[68];
    ghost var was, ds := dest[..], Digits(n, 8);
    Ltoa8u(dest, 0, n, digits);
    StringOf(dest[..], was, Chars(ds));
    var text := dest[..digits + 1];
    HoldsChars(text, ds, 8);
    RunOf(text, 0, ds, 8);
    back, p, e2big := Atol8u(dividers, text, 0);
    OctalReads(dividers, text, 0, ds, back, p, e2big);
  }

  /** Upper-case letters are no prefix, so hexadecimal digits are read as such. */
  lemma NoHexPrefix(text: seq<byte>, s: nat, ds: seq<nat>)
    requires Holds(text, s, ds, 16)
    ensures !HasPrefix(text, s, LOWER_X)
  {
    if |ds| >= 2 {
      assert text[s..s + |ds|][1] == Chars(ds)[1];
      CharKinds(ds[1]);
    }
  }

  lemma HexWithoutPrefix(text: seq<byte>, s: nat, r: nat, p: nat, e2big: bool)
    requires s <= |text| && !HasPrefix(text, s, LOWER_X) && RunEnd(text, s, 16) > s && HexFit(text, s, r, p, e2big)
    ensures LongestFit(text, s, 16, r, p, e2big)
  {
  }

  lemma HexIsPlain(text: seq<byte>, s: nat, ds: seq<nat>, r: nat, p: nat, e2big: bool)
    requires s <= |text| && Holds(text, s, ds, 16) && |ds| >= 1 && Value(ds, 16) < BASE && HexFit(text, s, r, p, e2big)
    ensures r == Value(ds, 16) && p == s + |ds| && !e2big
  {
    hide *;
    RunOf(text, s, ds, 16);
    NoHexPrefix(text, s, ds);
    HexWithoutPrefix(text, s, r, p, e2big);
    FitsWhole(text, s, 16, r, p, e2big);
  }

  /** Base 16, for both readers. The buffer holds an even count of digits. */
  method Hexadecimal(n: nat) returns (digits: nat, back: nat, p: nat, e2big: bool, back': nat, p': nat, e2big': bool)
    requires n < BASE
    ensures back == n && p == digits && !e2big
    ensures back' == n && p' == digits && !e2big'
  {
    hide Fixed, Value, Chars, RunEnd, Number, Patched;
    digits := Digits16u(n);
    var dest := new byte[68];
    ghost var was, ds := dest[..], Fixed(n, 16, digits);
    Ltoa16u(dest, 0, n, digits);
    StringOf(dest[..], was, Chars(ds));
    ValueOfFixed(n, 16, digits);
    var text := dest[..digits + 1];
    HoldsChars(text, ds, 16);
    RunOf(text, 0, ds, 16);
    back, p, e2big := Atol16u(text, 0);
    HexIsPlain(text, 0, ds, back, p, e2big);
    back', p', e2big' := Stol16u(text, 0);
    FitsWhole(text, 0, 16, back', p', e2big');
  }

  /** A leading zero adds nothing. */
  lemma {:induction false} LeadingZero(text: seq<byte>, i: nat, j: nat, base: nat)
    requires i < j <= |text| && DigitOf(text[i], base) == 0
    ensures Number(text, i, j, base) == Number(text, i + 1, j, base)
    decreases j
  {
    if i + 1 < j {
      LeadingZero(text, i, j - 1, base);
    }
  }

  /** The binary reader skips a leading zero. */
  lemma BinaryStartOf(text: seq<byte>, s: nat, ds: seq<nat>)
    requires Holds(text, s, ds, 2) && |ds| >= 1
    ensures s < |text| && BinaryStart(text, s) == s + if ds[0] == 0 then 1 else 0
    ensures text[s] == CharOf(ds[0])
  {
    hide CharOf, IsLetter;
    forall k | 0 <= k < |ds|
      ensures text[s + k] == CharOf(ds[k])
    {
      assert text[s..s + |ds|][k] == Chars(ds)[k];
    }
    CharKinds(ds[0]);
    assert text[s] == CharOf(ds[0]);
    if |ds| > 1 {
      CharKinds(ds[1]);
      assert text[s + 1] == CharOf(ds[1]);
    }
    NulIsNoLetter();
  }

  lemma NulIsNoLetter()
    ensures !IsLetter(0, LOWER_B)
  {
  }

  /** Which loses nothing. */
  lemma BinaryGrouped(dividers: bool, text: seq<byte>, s: nat, ds: seq<nat>)
    requires Holds(text, s, ds, 2) && s < |text| && |ds| >= 1
    ensures var i, f := BinaryStart(text, s), Format(2, dividers);
      GroupedEnd(text, i, f) == s + |ds| && GroupedNumber(text, i, s + |ds|, 2) == Value(ds, 2)
  {
    HoldsLength(text, s, ds, 2);
    BinaryRun(text, s, ds);
    BinaryStartOf(text, s, ds);
    hide Number, RunEnd, GroupedNumber, GroupedEnd, Value, Holds, BinaryStart;
    GroupedBits(text, BinaryStart(text, s), s + |ds|, Format(2, dividers));
  }

  lemma BinaryIsPlain(dividers: bool, text: seq<byte>, s: nat, ds: seq<nat>, r: nat, p: nat, e2big: bool)
    requires Holds(text, s, ds, 2) && s < |text| && |ds| >= 1 && Value(ds, 2) < BASE
    requires GroupedFit(text, BinaryStart(text, s), Format(2, dividers), r, p, e2big)
    ensures r == Value(ds, 2) && p == s + |ds| && !e2big
  {
    BinaryGrouped(dividers, text, s, ds);
    hide GroupedFit, GroupedNumber, GroupedEnd, Value, Holds, BinaryStart;
    var i, f := BinaryStart(text, s), Format(2, dividers);
    GroupedOverflowIsExact(text, i, f, r, p, e2big);
    GroupedWhole(text, i, f, r, p, e2big);
  }

  lemma GroupedWhole(text: seq<byte>, i: nat, f: Format, r: nat, p: nat, e2big: bool)
    requires i <= |text| && GroupedFit(text, i, f, r, p, e2big) && !e2big
    ensures p == GroupedEnd(text, i, f) && r == GroupedNumber(text, i, p, f.base)
  {
  }

  lemma GroupedBits(text: seq<byte>, i: nat, e: nat, f: Format)
    requires i <= e && e + 1 == |text| && text[e] == 0 && RunEnd(text, i, f.base) == e
    ensures GroupedEnd(text, i, f) == e && GroupedNumber(text, i, e, f.base) == Number(text, i, e, f.base)
  {
    Undivided(text, i, f);
    UndividedNumber(text, i, e, f.base);
  }

  /** The digits from there on are the same run with the same value. */
  lemma BinaryRun(text: seq<byte>, s: nat, ds: seq<nat>)
    requires Holds(text, s, ds, 2) && |ds| >= 1
    ensures text[s + |ds|] == 0
    ensures var i, e := s + (if ds[0] == 0 then 1 else 0), s + |ds|;
      RunEnd(text, i, 2) == e && Number(text, i, e, 2) == Value(ds, 2)
  {
    RunOf(text, s, ds, 2);
    BinaryStartOf(text, s, ds);
    CharDigit(ds[0], 2);
    hide Value, Chars, CharOf, DigitOf, Number, BinaryStart;
    if ds[0] == 0 {
      LeadingZero(text, s, s + |ds|, 2);
      NextRun(text, s, 2);
    }
  }

  lemma NextRun(text: seq<byte>, i: nat, base: nat)
    requires i < |text| && RunEnd(text, i, base) > i
    ensures RunEnd(text, i + 1, base) == RunEnd(text, i, base)
  {
  }

  lemma BinaryValue(n: nat)
    requires n < BASE
    ensures Value(Fixed(n, 2, BinaryCount(n)), 2) == n && 1 <= BinaryCount(n) <= 64
  {
    var l := |Digits(n, 2)|;
    DigitsBound(n, 2);
    AtMost64Word(n, 2);
    PowerUnfold(2, l + 1);
    hide Fixed, Value, Digits, Power;
    ValueOfFixed(n, 2, BinaryCount(n));
  }

  /** Base 2, with the word-parallel printer and reader. */
  method Binary(dividers: bool, n: nat) returns (digits: nat, back: nat, p: nat, e2big: bool)
    requires n < BASE
    ensures back == n && p == digits && !e2big
  {
    hide Fixed, Value, Chars, RunEnd, Number, Patched, BinaryCount;
    BinaryValue(n);
    digits := DigitsBin(n);
    var dest := new byte[68];
    ghost var was, ds := dest[..], Fixed(n, 2, digits);
    LtoaBin(dest, 0, n, digits);
    StringOf(dest[..], was, Chars(ds));
    var text := dest[..digits + 1];
    HoldsChars(text, ds, 2);
    RunOf(text, 0, ds, 2);
    back, p, e2big := AtolXbase(dividers, text, 0, 2);
    BinaryIsPlain(dividers, text, 0, ds, back, p, e2big);
  }

  /** The general reader on a numeral, whichever reader it forwards to. */
  lemma XbaseIsExact(dividers: bool, text: seq<byte>, ds: seq<nat>, base: nat, r: nat, p: nat, e2big: bool)
    requires Holds(text, 0, ds, base) && 3 <= base && |ds| >= 1 && Value(ds, base) < BASE
    requires XbaseFit(dividers, text, 0, base, r, p, e2big)
    ensures r == Value(ds, base) && p == |ds| && !e2big
  {
    RunOf(text, 0, ds, base);
    if base == 10 {
      DecimalReads(dividers, text, 0, ds, r, p, e2big);
    } else if base == 16 {
      HexIsPlain(text, 0, ds, r, p, e2big);
    } else {
      hide Number, Value, RunEnd, Chars;
      NoWrapIfItFits(text, 0, base);
      FitsWhole(text, 0, base, r, p, e2big);
    }
  }

  /** Every base from 3 to 36. */
  method AnyBase(dividers: bool, n: nat, base: nat) returns (digits: nat, back: nat, p: nat, e2big: bool)
    requires n < BASE && 3 <= base <= 36
    ensures back == n && p == digits && !e2big
  {
    hide Digits, Value, Chars, RunEnd, Number, Patched, XbaseFit;
    AtMost64Word(n, base);
    ValueOfDigits(n, base);
    digits := DigitsXbase(n, base);
    var dest := new byte[68];
    ghost var was, ds := dest[..], Digits(n, base);
    LtoaXbase(dest, 0, n, digits, base);
    StringOf(dest[..], was, Chars(ds));
    var text := dest[..digits + 1];
    HoldsChars(text, ds, base);
    RunOf(text, 0, ds, base);
    back, p, e2big := AtolXbase(dividers, text, 0, base);
    XbaseIsExact(dividers, text, ds, base, back, p, e2big);
  }

  // ---- Signed decimal numbers ----

  lemma {:induction false} FirstDigit(n: nat, base: nat)
    requires n > 0 && base >= 2
    ensures Digits(n, base)[0] > 0
  {
    if n >= base {
      Shrinks(n, base);
      FirstDigit(n / base, base);
    }
  }

  lemma MagnitudeFits(num: int)
    requires INT_MIN <= num <= INT_MAX
    ensures Magnitude(num) < BASE
  {
  }

  /** What the decimal reader makes of a magnitude. */
  lemma MagnitudeReadsBack(dividers: bool, text: seq<byte>, s: nat, ds: seq<nat>, num: int, u: nat, q: nat, err: bool)
    requires INT_MIN <= num <= INT_MAX && Holds(text, s, ds, 10) && |ds| >= 1 && Value(ds, 10) == Magnitude(num)
    requires DecimalFit(dividers, text, s, u, q, err)
    ensures u == Magnitude(num) && q == |text| - 1 && q != s && !err
  {
    hide *;
    HoldsLength(text, s, ds, 10);
    MagnitudeFits(num);
    DecimalReads(dividers, text, s, ds, u, q, err);
  }

  lemma SignedReadsBack(dividers: bool, text: seq<byte>, s: nat, ds: seq<nat>, num: int, r: int, p: nat, e2big: bool)
    requires INT_MIN <= num <= INT_MAX && StartOf(text, 0) == Start(num < 0, 0, s)
    requires AtolFit(dividers, text, 0, r, p, e2big)
    requires Holds(text, s, ds, 10) && |ds| >= 1 && Value(ds, 10) == Magnitude(num)
    ensures r == num && p == |text| - 1 && !e2big
  {
    hide StartOf, Value, Holds, DecimalFit, U2iLimit;
    var u: nat, q: nat, err: bool :|
      u < BASE && Reads(dividers, text, 0, s, u, q, err) && p == (if q != s then q else 0)
      && r == U2iLimit(u, num < 0).value && e2big == (err || U2iLimit(u, num < 0).e2big);
    MagnitudeReadsBack(dividers, text, s, ds, num, u, q, err);
  }

  /** "0" chooses the octal reader, which finds no further digit. */
  lemma ZeroReadsBack(dividers: bool, text: seq<byte>, r: int, p: nat, e2big: bool)
    requires text == [ZERO, 0] && AtolFit(dividers, text, 0, r, p, e2big)
    ensures r == 0 && p == 1 && !e2big
  {
    assert StartOf(text, 0) == Start(false, 1, 1);
    hide StartOf, U2iLimit;
    var u: nat, q: nat, err: bool :|
      u < BASE && Reads(dividers, text, 1, 1, u, q, err) && p == q && r == AsSigned(u) && e2big == err;
    assert GroupedEnd(text, 1, Format(8, dividers)) == 1;
  }

  /** Other numbers choose the decimal reader. */
  lemma StartOfDecimal(text: seq<byte>, negative: bool, d: nat)
    requires 0 < d < 10
    requires if negative then |text| >= 2 && text[0] == MINUS && text[1] == CharOf(d)
             else |text| >= 1 && text[0] == CharOf(d)
    ensures StartOf(text, 0) == Start(negative, 0, if negative then 1 else 0)
  {
    CharKinds(d);
  }

  lemma TextOfDecimal(text: seq<byte>, num: int)
    requires INT_MIN <= num <= INT_MAX && text == LtoaText(num, 10) + [0]
    ensures Holds(text, if num < 0 then 1 else 0, Digits(Magnitude(num), 10), 10)
    ensures num < 0 ==> text[0] == MINUS
    ensures text[if num < 0 then 1 else 0] == CharOf(Digits(Magnitude(num), 10)[0])
    ensures num == 0 ==> text == [ZERO, 0]
  {
    assert num == 0 ==> Digits(Magnitude(num), 10) == [0];
    hide Digits;
  }

  /** fio_atol on the decimal numeral of a number, with its sign. */
  lemma DecimalReadsBack(dividers: bool, text: seq<byte>, num: int, r: int, p: nat, e2big: bool)
    requires INT_MIN <= num <= INT_MAX && text == LtoaText(num, 10) + [0]
    requires AtolFit(dividers, text, 0, r, p, e2big)
    ensures r == num && p == |text| - 1 && !e2big
  {
    hide *;
    TextOfDecimal(text, num);
    if num == 0 {
      ZeroReadsBack(dividers, text, r, p, e2big);
    } else {
      var n := Magnitude(num);
      NonZero(num);
      FirstDigit(n, 10);
      ValueOfDigits(n, 10);
      HoldsLength(text, if num < 0 then 1 else 0, Digits(n, 10), 10);
      StartOfDecimal(text, num < 0, Digits(n, 10)[0]);
      SignedReadsBack(dividers, text, if num < 0 then 1 else 0, Digits(n, 10), num, r, p, e2big);
    }
  }

  lemma NonZero(num: int)
    requires num != 0
    ensures Magnitude(num) > 0
  {
  }

  /** fio_ltoa in base 10, then fio_atol: every signed 64 bit number comes back. */
  method SignedDecimal(dividers: bool, num: int) returns (len: nat, back: int, p: nat, e2big: bool)
    requires INT_MIN <= num <= INT_MAX
    ensures back == num && p == len && !e2big
  {
    hide LtoaText, Patched, AtolFit, StartOf;
    var dest := new byte[68];
    ghost var was := dest[..];
    len := Ltoa(dest, 0, num, 10);
    StringOf(dest[..], was, LtoaText(num, 10));
    var text := dest[..len + 1];
    Plain(text, num);
    back, p, e2big := Atol(dividers, text, 0);
    DecimalReadsBack(dividers, text, num, back, p, e2big);
  }

  lemma Plain(text: seq<byte>, num: int)
    requires INT_MIN <= num <= INT_MAX && text == LtoaText(num, 10) + [0]
    ensures Terminated(text, 0)
  {
    assert text[|text| - 1] == 0;
  }

  // ---- Signed numbers in other bases ----

  /** With the prefix that fio_atol recognises, the bits of a number in base 16 or
      2 choose their reader. */
  lemma StartOfBits(text: seq<byte>, letter: byte)
    requires |text| >= 2 && text[0] == ZERO && text[1] == letter && (letter == LOWER_X || letter == LOWER_B)
    ensures StartOf(text, 0) == Start(false, if letter == LOWER_X then 3 else 2, 2)
  {
  }

  lemma HoldsPrefixed(text: seq<byte>, front: seq<byte>, ds: seq<nat>, base: nat)
    requires 2 <= base <= 36 && text == front + Chars(ds) + [0]
    requires forall k :: 0 <= k < |ds| ==> ds[k] < base
    ensures Holds(text, |front|, ds, base) && |text| == |front| + |ds| + 1
  {
    assert text[|front|..|front| + |ds|] == Chars(ds);
  }

  lemma HexadecimalValue(n: nat)
    requires n < BASE
    ensures Value(Fixed(n, 16, Digits16u(n)), 16) == n && Digits16u(n) >= 2
  {
    ValueOfFixed(n, 16, Digits16u(n));
  }

  /** The two readers on the 64 bits of a number. */
  lemma HexadecimalBits(dividers: bool, text: seq<byte>, ds: seq<nat>, num: int, r: int, p: nat, e2big: bool)
    requires INT_MIN <= num <= INT_MAX && StartOf(text, 0) == Start(false, 3, 2)
    requires Holds(text, 2, ds, 16) && |ds| >= 1 && Value(ds, 16) == AsUnsigned(num)
    requires AtolFit(dividers, text, 0, r, p, e2big)
    ensures r == num && p == 2 + |ds| && !e2big
  {
    hide StartOf, Value, Holds, HexFit, AsSigned, AsUnsigned;
    var n := AsUnsigned(num);
    var u: nat, q: nat, err: bool :|
      && u < BASE && Reads(dividers, text, 3, 2, u, q, err)
      && p == (if q != 2 then q else 0) && r == AsSigned(u) && e2big == err;
    HexIsPlain(text, 2, ds, u, q, err);
  }

  lemma BinaryBits(dividers: bool, text: seq<byte>, ds: seq<nat>, num: int, r: int, p: nat, e2big: bool)
    requires INT_MIN <= num <= INT_MAX && StartOf(text, 0) == Start(false, 2, 2)
    requires Holds(text, 2, ds, 2) && |ds| >= 1 && Value(ds, 2) == AsUnsigned(num)
    requires AtolFit(dividers, text, 0, r, p, e2big)
    ensures r == num && p == 2 + |ds| && !e2big
  {
    hide StartOf, Value, Holds, GroupedFit, AsSigned, AsUnsigned, BinaryStart;
    var n := AsUnsigned(num);
    var u: nat, q: nat, err: bool :|
      && u < BASE && Reads(dividers, text, 2, 2, u, q, err)
      && p == (if q != 2 then q else 0) && r == AsSigned(u) && e2big == err;
    BinaryIsPlain(dividers, text, 2, ds, u, q, err);
  }

  /** fio_atol on 0x and the text that fio_ltoa writes in base 16. */
  lemma HexadecimalReadsBack(dividers: bool, text: seq<byte>, num: int, r: int, p: nat, e2big: bool)
    requires INT_MIN <= num <= INT_MAX && text == [48, 120] + LtoaText(num, 16) + [0]
    requires AtolFit(dividers, text, 0, r, p, e2big)
    ensures r == num && p == |text| - 1 && !e2big
  {
    hide AtolFit, Fixed, Value, Holds, StartOf, Digits16u;
    var ds := LtoaDigits(num, 16);
    HoldsPrefixed(text, [ZERO, LOWER_X], ds, 16);
    HexadecimalValue(AsUnsigned(num));
    StartOfBits(text, LOWER_X);
    HexadecimalBits(dividers, text, ds, num, r, p, e2big);
  }

  /** fio_atol on 0b and the text that fio_ltoa writes in base 2. */
  lemma BinaryReadsBack(dividers: bool, text: seq<byte>, num: int, r: int, p: nat, e2big: bool)
    requires INT_MIN <= num <= INT_MAX && text == [48, 98] + LtoaText(num, 2) + [0]
    requires AtolFit(dividers, text, 0, r, p, e2big)
    ensures r == num && p == |text| - 1 && !e2big
  {
    hide AtolFit, Fixed, Value, Holds, StartOf, BinaryCount;
    var ds := LtoaDigits(num, 2);
    HoldsPrefixed(text, [ZERO, LOWER_B], ds, 2);
    BinaryValue(AsUnsigned(num));
    StartOfBits(text, LOWER_B);
    BinaryBits(dividers, text, ds, num, r, p, e2big);
  }

  lemma StartOfOctal(text: seq<byte>, s: nat, negative: bool, d: nat)
    requires d < 8 && s == (if negative then 2 else 1) && s < |text| && text[s] == CharOf(d)
    requires text[s - 1] == ZERO && (negative ==> text[0] == MINUS)
    ensures StartOf(text, 0) == Start(negative, 1, s)
  {
    CharKinds(d);
  }

  /** fio_atol on the octal numeral of a number, with a zero between its sign and
      its digits. */
  lemma OctalReadsBack(dividers: bool, text: seq<byte>, num: int, r: int, p: nat, e2big: bool)
    requires INT_MIN <= num <= INT_MAX
    requires text == (if num < 0 then [45, 48] else [48]) + Chars(Digits(Magnitude(num), 8)) + [0]
    requires AtolFit(dividers, text, 0, r, p, e2big)
    ensures r == num && p == |text| - 1 && !e2big
  {
    var ds, front := Digits(Magnitude(num), 8), if num < 0 then [MINUS, ZERO] else [ZERO];
    var s := |front|;
    assert text == front + Chars(ds) + [0];
    HoldsPrefixed(text, front, ds, 8);
    assert text[s] == CharOf(ds[0]);
    hide Digits, Value, Holds, AtolFit, StartOf, CharOf;
    ValueOfDigits(Magnitude(num), 8);
    StartOfOctal(text, s, num < 0, ds[0]);
    OctalSignedReads(dividers, text, s, ds, num, r, p, e2big);
  }

  lemma OctalSignedReads(dividers: bool, text: seq<byte>, s: nat, ds: seq<nat>, num: int, r: int, p: nat, e2big: bool)
    requires INT_MIN <= num <= INT_MAX && StartOf(text, 0) == Start(num < 0, 1, s)
    requires Holds(text, s, ds, 8) && Value(ds, 8) == Magnitude(num) && AtolFit(dividers, text, 0, r, p, e2big)
    ensures r == num && p == s + |ds| && !e2big
  {
    hide StartOf, Value, Holds, OctalFit, U2iLimit;
    var u: nat, q: nat, err: bool :|
      && u < BASE && Reads(dividers, text, 1, s, u, q, err) && p == q
      && r == (if num < 0 then U2iLimit(u, num < 0).value else AsSigned(u))
      && e2big == (err || (num < 0 && U2iLimit(u, num < 0).e2big));
    OctalReads(dividers, text, s, ds, u, q, err);
    var limited := U2iLimit(u, num < 0);
  }

  /** fio_ltoa in base 16 or 2 behind its prefix, then fio_atol: every signed 64
      bit number comes back. */
  method SignedBits(dividers: bool, num: int, hexadecimal: bool) returns (len: nat, back: int, p: nat, e2big: bool)
    requires INT_MIN <= num <= INT_MAX
    ensures back == num && p == len + 2 && !e2big
  {
    hide LtoaText, Patched, AtolFit, StartOf;
    var dest := new byte[70];
    var base: nat, letter := if hexadecimal then 16 else 2, if hexadecimal then LOWER_X else LOWER_B;
    dest[0], dest[1] := ZERO, letter;
    ghost var was, t := dest[..], LtoaText(num, base);
    len := Ltoa(dest, 2, num, base);
    PrefixedString(dest[..], was, t);
    var text := dest[..len + 3];
    assert text == [ZERO, letter] + t + [0];
    EndsInNul(text);
    back, p, e2big := Atol(dividers, text, 0);
    if hexadecimal {
      HexadecimalReadsBack(dividers, text, num, back, p, e2big);
    } else {
      BinaryReadsBack(dividers, text, num, back, p, e2big);
    }
  }

  lemma PrefixedString(buffer: seq<byte>, was: seq<byte>, t: seq<byte>)
    requires 2 + |t| < |was| && buffer == Patched(was, 2, t + [0])
    ensures buffer[..|t| + 3] == [was[0], was[1]] + t + [0]
  {
  }

  lemma EndsInNul(text: seq<byte>)
    requires text != [] && text[|text| - 1] == 0
    ensures Terminated(text, 0)
  {
  }
}
