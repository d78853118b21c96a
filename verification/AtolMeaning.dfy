/** Which signed number fio_atol makes of a numeral, when it reports an
    overflow, and which prefix chooses which reader. */
module AtolMeaning {
  import opened Bytes
  import opened Words
  import opened Bitwise
  import opened Numerals
  import opened Parsers
  import opened Dividers
  import opened GroupedReaders
  import opened TextToNumber

  // ---- The readers ----

  function BaseOf(reader: nat): (base: nat)
    ensures 2 <= base <= 16
  {
    match reader
    case 0 => 10
    case 1 => 8
    case 2 => 2
    case _ => 16
  }

  /** Where the digits of the chosen reader begin. */
  function DigitsStart(text: seq<byte>, reader: nat, s: nat): (i: nat)
    requires s < |text|
    ensures s <= i <= |text|
  {
    if reader == 2 then BinaryStart(text, s)
    else if reader >= 3 && HasPrefix(text, s, LOWER_X) then s + 2
    else s
  }

  /** The hexadecimal reader accepts no dividers: where it would skip one it has
      already seen that the byte is a digit. */
  function FormatOf(dividers: bool, reader: nat): Format {
    Format(BaseOf(reader), dividers && reader < 3)
  }

  /** The number of the whole numeral. */
  function NumeralValue(dividers: bool, text: seq<byte>, reader: nat, s: nat): nat
    requires s < |text|
  {
    var i, f := DigitsStart(text, reader, s), FormatOf(dividers, reader);
    GroupedNumber(text, i, GroupedEnd(text, i, f), f.base)
  }

  /** Where it ends. */
  function NumeralEnd(dividers: bool, text: seq<byte>, reader: nat, s: nat): (e: nat)
    requires s < |text|
    ensures DigitsStart(text, reader, s) <= e <= |text|
  {
    GroupedEnd(text, DigitsStart(text, reader, s), FormatOf(dividers, reader))
  }

  /** The octal reader meets a divider where no further digit has room. */
  ghost predicate CutShort(dividers: bool, text: seq<byte>, reader: nat, s: nat)
    requires s < |text|
  {
    reader == 1 && FullAtDivider(text, s, Format(8, dividers))
  }

  /** Every reader reports exactly the numerals that exceed 64 bits, and reads the
      others whole, unless it is cut short: then it never reports. */
  lemma ReaderExact(dividers: bool, text: seq<byte>, reader: nat, s: nat, u: nat, q: nat, err: bool)
    requires s < |text| && Reads(dividers, text, reader, s, u, q, err)
    ensures err <==> NumeralValue(dividers, text, reader, s) >= BASE && !CutShort(dividers, text, reader, s)
    ensures !err && !CutShort(dividers, text, reader, s) ==> u == NumeralValue(dividers, text, reader, s)
    ensures !err && !CutShort(dividers, text, reader, s) ==>
      (reader < 3 || NumeralEnd(dividers, text, reader, s) > DigitsStart(text, reader, s) ==>
        q == NumeralEnd(dividers, text, reader, s))
  {
    var i, f := DigitsStart(text, reader, s), FormatOf(dividers, reader);
    hide GroupedNumber, GroupedEnd, Number, RunEnd, FullAtDivider;
    if reader == 0 {
      DecimalOverflowIsExact(dividers, text, i, u, q, err);
    } else if reader == 1 {
      OctalOverflowIsExact(dividers, text, i, u, q, err);
    } else if reader == 2 {
      GroupedOverflowIsExact(text, i, f, u, q, err);
    } else {
      Undivided(text, i, f);
      UndividedNumber(text, i, RunEnd(text, i, 16), 16);
      if LongestFit(text, i, 16, u, q, err) {
        OverflowIsExact(text, i, 16, u, q, err);
      } else {
        EmptyRun(text, i);
      }
    }
  }

  lemma EmptyRun(text: seq<byte>, i: nat)
    requires i <= |text|
    ensures Number(text, i, i, 16) == 0
  {
  }

  // ---- The result ----

  /** Decimal and negative numbers are limited to the signed range. */
  predicate Limited(st: Start) {
    st.negative || st.reader == 0
  }

  function SignedValue(dividers: bool, text: seq<byte>, st: Start): int
    requires st.s < |text|
  {
    var v := NumeralValue(dividers, text, st.reader, st.s);
    if st.negative then 0 - v as int else v
  }

  /** The whole numeral is consumed, or, without one, nothing, unless the octal
      reader was chosen. The hexadecimal reader without digits is left open. */
  predicate Consumed(dividers: bool, text: seq<byte>, pos: nat, p: nat) {
    var st := StartOf(text, pos);
    st.s < |text| &&
    var e := NumeralEnd(dividers, text, st.reader, st.s);
    (st.reader < 3 || e > DigitsStart(text, st.reader, st.s)) ==> p == if e != st.s || st.reader == 1 then e else pos
  }

  /** A decimal or negative numeral: overflow is reported exactly if its value is
      no signed 64 bit number, and otherwise its value is the result. */
  lemma LimitedMeaning(dividers: bool, text: seq<byte>, pos: nat, r: int, p: nat, e2big: bool)
    requires AtolFit(dividers, text, pos, r, p, e2big) && Limited(StartOf(text, pos))
    ensures var st := StartOf(text, pos);
      st.s < |text| && (!CutShort(dividers, text, st.reader, st.s) ==>
        && (e2big <==> !(INT_MIN <= SignedValue(dividers, text, st) <= INT_MAX))
        && (!e2big ==> r == SignedValue(dividers, text, st))
        && (!e2big ==> Consumed(dividers, text, pos, p)))
  {
    var st := StartOf(text, pos);
    hide StartOf, Reads, NumeralValue, NumeralEnd, DigitsStart, CutShort;
    var u: nat, q: nat, err: bool :|
      && u < BASE && Reads(dividers, text, st.reader, st.s, u, q, err)
      && p == (if q != st.s || st.reader == 1 then q else pos)
      && r == U2iLimit(u, st.negative).value && e2big == (err || U2iLimit(u, st.negative).e2big);
    ReaderExact(dividers, text, st.reader, st.s, u, q, err);
    var limited := U2iLimit(u, st.negative);
  }

  /** Other numerals stand for the signed number with the same 64 bits. */
  lemma UnlimitedMeaning(dividers: bool, text: seq<byte>, pos: nat, r: int, p: nat, e2big: bool)
    requires AtolFit(dividers, text, pos, r, p, e2big) && !Limited(StartOf(text, pos))
    ensures var st := StartOf(text, pos);
      st.s < |text| &&
      var v, cut := NumeralValue(dividers, text, st.reader, st.s), CutShort(dividers, text, st.reader, st.s);
      && (e2big <==> v >= BASE && !cut)
      && (!e2big && !cut ==> r == AsSigned(v))
      && (!e2big && !cut ==> Consumed(dividers, text, pos, p))
  {
    var st := StartOf(text, pos);
    hide StartOf, Reads, NumeralValue, NumeralEnd, DigitsStart, AsSigned, CutShort;
    var u: nat, q: nat, err: bool :|
      && u < BASE && Reads(dividers, text, st.reader, st.s, u, q, err)
      && p == (if q != st.s || st.reader == 1 then q else pos) && r == AsSigned(u) && e2big == err;
    ReaderExact(dividers, text, st.reader, st.s, u, q, err);
  }

  /** Cut short, the octal reader stops at the divider with the number so far,
      without a report. */
  lemma CutShortReads(dividers: bool, text: seq<byte>, s: nat, u: nat, q: nat, err: bool)
    requires s < |text| && Reads(dividers, text, 1, s, u, q, err) && CutShort(dividers, text, 1, s)
    ensures !err && s <= q < |text| && text[q] == 95
    ensures u == GroupedNumber(text, s, q, 8) && BASE / 8 <= u < BASE
  {
    var f := Format(8, dividers);
    OctalOverflowIsExact(dividers, text, s, u, q, err);
    hide FullAtDivider, GroupedNumber, EndFrom;
    GroupedGoesOn(text, s, q, f);
  }

  /** A numeral that the octal reader cuts short: 2 to the 63, a divider, and one
      more digit. */
  lemma OctalOverflowMissed(text: seq<byte>, i: nat)
    requires i + 24 <= |text| && text[i] == 49 && forall k :: i < k < i + 22 ==> text[k] == 48
    requires text[i + 22] == 95 && IsDigit(text[i + 23], 8)
    ensures CutShort(true, text, 1, i) && NumeralValue(true, text, 1, i) >= BASE
  {
    var f, n := Format(8, true), i + 22;
    OctalZeros(text, i, 21);
    WordPower();
    OneGroup(text, i, n, 8);
    ReachesBeyond(text, i, f, n + 2);
    hide GroupedNumber, GroupedEnd, GroupLength;
    assert SkippedAt(text, i, n, f);
    assert FullDividerAt(text, i, n, f);
    AfterDivider(text, i, n, 8);
    GroupedScales(text, i, n + 1, GroupedEnd(text, i, f), 8);
  }

  lemma {:induction false} OctalZeros(text: seq<byte>, i: nat, n: nat)
    requires i + n < |text| && text[i] == 49 && forall k :: i < k <= i + n ==> text[k] == 48
    ensures GroupedNumber(text, i, i + n + 1, 8) == Pow2(3 * n)
  {
    if n > 0 {
      OctalZeros(text, i, n - 1);
      AfterDigit(text, i, i + n, 8);
      assert Pow2(3 * n) == 2 * Pow2(3 * n - 1) && Pow2(3 * n - 1) == 2 * Pow2(3 * n - 2);
    } else {
      AfterDigit(text, i, i, 8);
    }
  }

  function LimitOf(negative: bool): int {
    if negative then INT_MIN else INT_MAX
  }

  /** On overflow of a decimal numeral the result is the limit exactly if the
      digits fit 64 bits. */
  lemma LimitExactly(dividers: bool, text: seq<byte>, pos: nat, r: int, p: nat, e2big: bool)
    requires AtolFit(dividers, text, pos, r, p, e2big) && StartOf(text, pos).reader == 0 && e2big
    ensures StartOf(text, pos).s < |text|
    ensures r == LimitOf(StartOf(text, pos).negative) <==> NumeralValue(dividers, text, 0, StartOf(text, pos).s) < BASE
  {
    var st := StartOf(text, pos);
    hide StartOf, Reads, NumeralValue, FullAtDivider;
    var u: nat, q: nat, err: bool :|
      && u < BASE && Reads(dividers, text, 0, st.s, u, q, err)
      && r == U2iLimit(u, st.negative).value && e2big == (err || U2iLimit(u, st.negative).e2big);
    assert !CutShort(dividers, text, 0, st.s);
    ReaderExact(dividers, text, 0, st.s, u, q, err);
    var limited := U2iLimit(u, st.negative);
    if err {
      OverflowPrefix(dividers, text, st.s, u, q, err);
    }
  }

  lemma OverflowPrefix(dividers: bool, text: seq<byte>, s: nat, u: nat, q: nat, err: bool)
    requires s < |text| && Reads(dividers, text, 0, s, u, q, err) && err
    ensures u <= MAX / 10 < BASE / 2 - 1
  {
  }

  lemma Digit(text: seq<byte>, k: nat, n: nat, d: nat)
    requires k < |text| && Number(text, 0, k, 10) == n && text[k] == 48 + d && d < 10
    ensures Number(text, 0, k + 1, 10) == 10 * n + d && IsDigit(text[k], 10)
  {
  }

  /** "18446744073709551616": twenty digits, the last of which has no room. */
  const WORD_NUMERAL: seq<byte> :=
    [49, 56, 52, 52, 54, 55, 52, 52, 48, 55] + [51, 55, 48, 57, 53, 53, 49, 54, 49, 54] + [0]

  lemma WordNumeralBytes(t: seq<byte>)
    requires t == WORD_NUMERAL
    ensures |t| == 21 && t[0] == 49 && t[1] == 56 && t[2] == 52 && t[3] == 52 && t[4] == 54 && t[5] == 55 && t[6] == 52
    ensures t[7] == 52 && t[8] == 48 && t[9] == 55 && t[10] == 51 && t[11] == 55 && t[12] == 48 && t[13] == 57
    ensures t[14] == 53
    ensures t[15] == 53 && t[16] == 49 && t[17] == 54 && t[18] == 49 && t[19] == 54 && t[20] == 0
  {
  }

  /** The eighteen digits before the overflow is decided. */
  lemma EighteenDigits(t: seq<byte>)
    requires |t| > 18 && t[0] == 49 && t[1] == 56 && t[2] == 52 && t[3] == 52 && t[4] == 54 && t[5] == 55 && t[6] == 52
    requires t[7] == 52 && t[8] == 48 && t[9] == 55 && t[10] == 51 && t[11] == 55 && t[12] == 48 && t[13] == 57
    requires t[14] == 53 && t[15] == 53 && t[16] == 49 && t[17] == 54
    ensures Number(t, 0, 18, 10) == 184467440737095516 && forall k :: 0 <= k < 18 ==> IsDigit(t[k], 10)
  {
    assert Number(t, 0, 0, 10) == 0;
    hide *;
    Digit(t, 0, 0, 1);
    Digit(t, 1, 1, 8);
    Digit(t, 2, 18, 4);
    Digit(t, 3, 184, 4);
    Digit(t, 4, 1844, 6);
    Digit(t, 5, 18446, 7);
    Digit(t, 6, 184467, 4);
    Digit(t, 7, 1844674, 4);
    Digit(t, 8, 18446744, 0);
    Digit(t, 9, 184467440, 7);
    Digit(t, 10, 1844674407, 3);
    Digit(t, 11, 18446744073, 7);
    Digit(t, 12, 184467440737, 0);
    Digit(t, 13, 1844674407370, 9);
    Digit(t, 14, 18446744073709, 5);
    Digit(t, 15, 184467440737095, 5);
    Digit(t, 16, 1844674407370955, 1);
    Digit(t, 17, 18446744073709551, 6);
  }

  lemma WordNumeral(t: seq<byte>)
    requires t == WORD_NUMERAL
    ensures |t| == 21 && RunEnd(t, 0, 10) == 20
    ensures Number(t, 0, 18, 10) == 184467440737095516 && Number(t, 0, 19, 10) == 1844674407370955161
    ensures Number(t, 0, 20, 10) == 0x1_0000_0000_0000_0000
  {
    WordNumeralBytes(t);
    hide *;
    EighteenDigits(t);
    Digit(t, 18, 184467440737095516, 1);
    Digit(t, 19, 1844674407370955161, 6);
    NulIsNoDigit();
    RunEndsAt(t, 0, 20, 10);
  }

  lemma NulIsNoDigit()
    ensures !IsDigit(0, 10)
  {
  }

  lemma WordNumeralGrouped(t: seq<byte>, f: Format)
    requires t == WORD_NUMERAL && f.base == 10
    ensures GroupedEnd(t, 0, f) == 20 < |t| && forall k :: 0 <= k < 20 ==> IsDigit(t[k], 10)
    ensures GroupedNumber(t, 0, 18, 10) == 184467440737095516
    ensures GroupedNumber(t, 0, 19, 10) == 1844674407370955161
    ensures GroupedNumber(t, 0, 20, 10) == 0x1_0000_0000_0000_0000
  {
    WordNumeral(t);
    WordNumeralBytes(t);
    hide Number, GroupedNumber;
    Undivided(t, 0, f);
    UndividedNumber(t, 0, 18, 10);
    UndividedNumber(t, 0, 19, 10);
    UndividedNumber(t, 0, 20, 10);
  }

  /** It overflows to a tenth of itself, not to the limit, and its last digit is
      not consumed. */
  lemma OverflowWithoutLimit(dividers: bool, r: int, p: nat, e2big: bool)
    requires AtolFit(dividers, WORD_NUMERAL, 0, r, p, e2big)
    ensures e2big && r == 1844674407370955161 && p == 19
  {
    var t := WORD_NUMERAL;
    WordNumeralGrouped(t, Format(10, dividers));
    WordNumeralBytes(t);
    ReaderChosen(t, 0);
    hide StartOf, GroupedEnd, EndFrom, GroupedNumber, IsDigit, DecimalFit;
    var u: nat, q: nat, err: bool :|
      && u < BASE && Reads(dividers, t, 0, 0, u, q, err) && p == (if q != 0 then q else 0)
      && r == U2iLimit(u, false).value && e2big == (err || U2iLimit(u, false).e2big);
    OverflowsAt(dividers, t, u, q, err);
    var limited := U2iLimit(u, false);
  }

  lemma OverflowsAt(dividers: bool, t: seq<byte>, u: nat, q: nat, err: bool)
    requires |t| == 21 && DecimalFit(dividers, t, 0, u, q, err)
    requires GroupedEnd(t, 0, Format(10, dividers)) == 20 && forall k :: 0 <= k < 20 ==> IsDigit(t[k], 10)
    requires GroupedNumber(t, 0, 18, 10) == 184467440737095516 && GroupedNumber(t, 0, 19, 10) == 1844674407370955161
    requires GroupedNumber(t, 0, 20, 10) == 0x1_0000_0000_0000_0000
    ensures err && u == 1844674407370955161 && q == 19
  {
    hide GroupedNumber, GroupedEnd, IsDigit;
    if q < 18 {
      GroupedGrows(t, 0, q + 1, 18, 10);
    }
  }

  /** "1844674407370955162" and one more digit: no digit has room behind the 2, and
      the reader steps back over it. With a divider before that digit, the 2 is
      consumed all the same. */
  lemma StepsBack(dividers: bool, t: seq<byte>, r: int, p: nat, e2big: bool)
    requires |t| > 20 && t[..18] == WORD_NUMERAL[..18] && t[18] == 50 && t[|t| - 1] == 0
    requires if |t| == 21 then t[19] == 48 else |t| == 22 && dividers && t[19] == 95 && t[20] == 48
    requires AtolFit(dividers, t, 0, r, p, e2big)
    ensures e2big && r == 184467440737095516 && p == |t| - 3
  {
    var f := Format(10, dividers);
    NineteenDigits(t);
    ReaderChosen(t, 0);
    NineteenGrouped(t, f);
    hide StartOf, EndFrom, GroupedEnd, GroupedNumber, RunEnd, Number, DecimalFit;
    var u: nat, q: nat, err: bool :|
      && u < BASE && Reads(dividers, t, 0, 0, u, q, err) && p == (if q != 0 then q else 0)
      && r == U2iLimit(u, false).value && e2big == (err || U2iLimit(u, false).e2big);
    StepsBackTo(dividers, t, u, q, err);
    var limited := U2iLimit(u, false);
  }

  lemma NineteenDigits(t: seq<byte>)
    requires |t| > 20 && t[..18] == WORD_NUMERAL[..18] && t[18] == 50
    ensures t[0] == 49 && Number(t, 0, 18, 10) == 184467440737095516
    ensures Number(t, 0, 19, 10) == 1844674407370955162 && forall k :: 0 <= k < 19 ==> IsDigit(t[k], 10)
  {
    WordNumeralBytes(WORD_NUMERAL);
    assert forall k :: 0 <= k < 18 ==> t[k] == t[..18][k] && t[..18][k] == WORD_NUMERAL[k];
    hide *;
    EighteenDigits(t);
    Digit(t, 18, 184467440737095516, 2);
  }

  lemma NineteenGrouped(t: seq<byte>, f: Format)
    requires f.base == 10 && |t| > 20 && forall k :: 0 <= k < 19 ==> IsDigit(t[k], 10)
    requires if |t| == 21 then t[19] == 48 else |t| == 22 && f.dividers && t[19] == 95 && t[20] == 48
    requires t[|t| - 1] == 0
    ensures GroupedEnd(t, 0, f) == |t| - 1
    ensures GroupedNumber(t, 0, 18, 10) == Number(t, 0, 18, 10) && GroupedNumber(t, 0, 19, 10) == Number(t, 0, 19, 10)
    ensures |t| == 22 ==> GroupedNumber(t, 0, 20, 10) == GroupedNumber(t, 0, 19, 10)
  {
    hide GroupedNumber, Number, GroupLength, EndFrom, DigitOf;
    OneGroup(t, 0, 18, 10);
    OneGroup(t, 0, 19, 10);
    TailBytes(f);
    forall k | 0 <= k < |t| - 1
      ensures GoesOnAt(t, 0, k, f)
    {
    }
    if |t| == 22 {
      AfterDivider(t, 0, 19, 10);
    }
    hide GoesOnAt, SkippedAt;
    NulEnds(t, |t| - 1, f);
    EndsAt(t, 0, 0, |t| - 1, f);
  }

  lemma NulEnds(t: seq<byte>, e: nat, f: Format)
    requires e < |t| && t[e] == 0 && f.base == 10
    ensures !GoesOnAt(t, 0, e, f)
  {
  }

  lemma TailBytes(f: Format)
    requires f.base == 10
    ensures IsDigit(48, 10) && !IsDigit(95, 10) && (f.dividers ==> IsDivider(95, f))
  {
  }

  lemma StepsBackTo(dividers: bool, t: seq<byte>, u: nat, q: nat, err: bool)
    requires |t| > 20 && DecimalFit(dividers, t, 0, u, q, err)
    requires GroupedEnd(t, 0, Format(10, dividers)) == |t| - 1
    requires GroupedNumber(t, 0, 18, 10) == 184467440737095516 && GroupedNumber(t, 0, 19, 10) == 1844674407370955162
    requires forall k :: 0 <= k < 19 ==> IsDigit(t[k], 10)
    requires |t| == 21 ==> IsDigit(t[19], 10)
    requires |t| != 21 ==> |t| == 22 && !IsDigit(t[19], 10) && IsDigit(t[20], 10)
    requires |t| == 22 ==> GroupedNumber(t, 0, 20, 10) == GroupedNumber(t, 0, 19, 10)
    ensures err && u == 184467440737095516 && q == |t| - 3
  {
    hide GroupedNumber, GroupedEnd, IsDigit;
    GroupedScales(t, 0, 19, |t| - 1, 10);
    if q < 18 {
      GroupedGrows(t, 0, q + 1, 18, 10);
    }
  }

  /** "1234_5" with dividers allowed: the fast path takes the four digits, and the
      divider ends the number. */
  lemma FastGroupEnds(r: int, p: nat, e2big: bool)
    requires AtolFit(true, [49, 50, 51, 52, 95, 53, 0], 0, r, p, e2big)
    ensures r == 1234 && p == 4 && !e2big
  {
    var t: seq<byte> := [49, 50, 51, 52, 95, 53, 0];
    var f := Format(10, true);
    assert StartOf(t, 0) == Start(false, 0, 0);
    FourDigits(t);
    hide StartOf, GroupedEnd, EndFrom, GroupedNumber, IsDigit, RunEnd;
    FirstDivider(t, 0, f);
    var u: nat, q: nat, err: bool :|
      && u < BASE && Reads(true, t, 0, 0, u, q, err) && p == (if q != 0 then q else 0)
      && r == U2iLimit(u, false).value && e2big == (err || U2iLimit(u, false).e2big);
    DecimalOverflowIsExact(true, t, 0, u, q, err);
    var limited := U2iLimit(u, false);
  }

  lemma FourDigits(t: seq<byte>)
    requires t == [49, 50, 51, 52, 95, 53, 0]
    ensures RunEnd(t, 0, 10) == 4 && GroupedNumber(t, 0, 4, 10) == 1234
  {
    RunEndsAt(t, 0, 4, 10);
    assert GroupedNumber(t, 0, 2, 10) == 12 && GroupedNumber(t, 0, 3, 10) == 123;
  }

  // ---- The choice of a reader ----

  /** After the sign: 0x chooses the hexadecimal reader, 0b and a bare x the
      binary one, any other zero and a bare b the octal one. */
  lemma ReaderChosen(text: seq<byte>, pos: nat)
    ensures var st, c := StartOf(text, pos), At(text, pos);
      var q := if c == 45 || c == 43 then pos + 1 else pos;
      var zero := At(text, q) == 48;
      var next := if zero then q + 1 else q;
      var b, x := At(text, next) == 66 || At(text, next) == 98, At(text, next) == 88 || At(text, next) == 120;
      && (st.negative <==> c == 45)
      && (st.reader == 3 <==> zero && x)
      && (st.reader == 2 <==> if zero then b else x)
      && (st.reader == 1 <==> if zero then !b && !x else b)
      && (st.reader == 0 <==> !zero && !b && !x)
      && st.s == if st.reader >= 2 then next + 1 else next
  {
  }

  /** "x1F" is documented as 31: its digits are read as binary. */
  lemma BareHexadecimal(dividers: bool, letter: byte, r: int, p: nat, e2big: bool)
    requires (letter == 120 || letter == 88) && AtolFit(dividers, [letter, 49, 70, 0], 0, r, p, e2big)
    ensures r == 1 && p == 2 && !e2big
  {
    var t: seq<byte> := [letter, 49, 70, 0];
    assert StartOf(t, 0) == Start(false, 2, 1) && BinaryStart(t, 1) == 1;
    var f := Format(2, dividers);
    EndsAt(t, 1, 1, 2, f);
    assert GroupedNumber(t, 1, 2, 2) == 1;
    hide StartOf, GroupedEnd, GroupedNumber;
    var u: nat, q: nat, err: bool :|
      && u < BASE && Reads(dividers, t, 2, 1, u, q, err)
      && p == (if q != 1 then q else 0) && r == AsSigned(u) && e2big == err;
    GroupedOverflowIsExact(t, 1, f, u, q, err);
  }

  /** A bare b is read by the octal reader, which finds no digit: the result is 0
      and only a sign is consumed. */
  lemma BareBinary(dividers: bool, text: seq<byte>, pos: nat, r: int, p: nat, e2big: bool)
    requires AtolFit(dividers, text, pos, r, p, e2big)
    requires At(text, if At(text, pos) == 45 || At(text, pos) == 43 then pos + 1 else pos) in [66, 98]
    ensures r == 0 && !e2big && p == if At(text, pos) == 45 || At(text, pos) == 43 then pos + 1 else pos
  {
    var st := StartOf(text, pos);
    assert st.reader == 1 && DigitOf(text[st.s], 8) >= 8;
    assert RunEnd(text, st.s, 8) == st.s;
    hide RunEnd, StartOf;
    var u: nat, q: nat, err: bool :|
      && u < BASE && Reads(dividers, text, 1, st.s, u, q, err) && p == q
      && r == (if st.negative then U2iLimit(u, st.negative).value else AsSigned(u))
      && e2big == (err || (st.negative && U2iLimit(u, st.negative).e2big));
    var limited := U2iLimit(u, st.negative);
  }
}
