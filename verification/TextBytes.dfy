/** What fio_ltoa writes and fio_atol reads, byte values written out. */
module TextBytes {
  import opened Bytes
  import opened Words
  import opened NumberTheory
  import opened Numerals
  import opened Parsers
  import opened Dividers
  import opened GroupedReaders
  import opened Printers
  import opened TextToNumber
  import opened NumberToText
  import opened AtolMeaning

  /** The digits in print: 0 to 9 and A to Z. */
  function Printed(c: byte): (d: nat) {
    if 48 <= c <= 57 then c - 48 else if 65 <= c <= 90 then c - 55 else 99
  }

  /** The number that printed digits write. */
  function NumberIn(w: seq<byte>, base: nat): nat {
    if w == [] then 0 else NumberIn(w[..|w| - 1], base) * base + Printed(w[|w| - 1])
  }

  predicate AllPrinted(w: seq<byte>, base: nat) {
    forall k :: 0 <= k < |w| ==> Printed(w[k]) < base
  }

  lemma PrintedByte(d: nat)
    requires d < 36
    ensures CharOf(d) == if d < 10 then 48 + d else 55 + d
    ensures Printed(CharOf(d)) == d
  {
  }

  lemma {:induction false} PrintedDigits(ds: seq<nat>, base: nat)
    requires base <= 36 && forall k :: 0 <= k < |ds| ==> ds[k] < base
    ensures AllPrinted(Chars(ds), base) && NumberIn(Chars(ds), base) == Value(ds, base)
  {
    if ds != [] {
      var n := |ds| - 1;
      PrintedDigits(ds[..n], base);
      assert Chars(ds)[..n] == Chars(ds[..n]);
      PrintedByte(ds[n]);
    }
  }

  // ---- Writing ----

  /** The digits of a magnitude, without a zero in front. */
  lemma MagnitudePrint(m: nat, base: nat)
    requires 2 <= base <= 36
    ensures var w := Text(m, base);
      && w != [] && AllPrinted(w, base) && NumberIn(w, base) == m
      && (w[0] == 48 ==> m == 0 && w == [48])
  {
    var ds := Digits(m, base);
    ValueOfDigits(m, base);
    LeadingDigit(m, base);
    hide Digits, Value, NumberIn, Printed, CharOf;
    PrintedDigits(ds, base);
    PrintedByte(ds[0]);
    if ds == [0] {
      assert Chars(ds) == [CharOf(0)];
    }
  }

  /** In a base with signs: a minus sign before a negative number, and then the
      digits of the magnitude. */
  lemma SignedPrint(num: int, base: nat)
    requires INT_MIN <= num <= INT_MAX && base <= 36 && base != 1 && base != 2 && base != 16
    ensures var t, b := LtoaText(num, base), if base == 0 then 10 else base;
      && (num < 0 ==> |t| > 1 && t[0] == 45 && AllPrinted(t[1..], b) && NumberIn(t[1..], b) == -num && t[1] != 48)
      && (num >= 0 ==> |t| > 0 && AllPrinted(t, b) && NumberIn(t, b) == num && (t[0] == 48 ==> t == [48]))
  {
    var b, m: nat := if base == 0 then 10 else base, if num < 0 then -num else num;
    SignedText(num, base);
    MagnitudePrint(m, b);
    hide LtoaText, Text, NumberIn, AllPrinted, Digits;
    var t, w := LtoaText(num, base), Text(m, b);
    if num < 0 {
      assert t == [45] + w && t[1..] == w;
    } else {
      assert t == [] + w == w;
    }
  }

  lemma {:induction false} LeadingDigit(n: nat, base: nat)
    requires base >= 2
    ensures Digits(n, base)[0] > 0 || (n == 0 && Digits(n, base) == [0])
  {
    if n >= base {
      Shrinks(n, base);
      LeadingDigit(n / base, base);
    }
  }

  /** In bases 2 and 16 the 64 bits of the number: the least even count of digits
      that holds them, at least two in base 16, and one digit for zero in base 2. */
  lemma BitsPrint(num: int, base: nat)
    requires INT_MIN <= num <= INT_MAX && (base == 1 || base == 2 || base == 16)
    ensures var t, b := LtoaText(num, base), if base == 16 then 16 else 2;
      && AllPrinted(t, b) && NumberIn(t, b) == (if num < 0 then num + 0x1_0000_0000_0000_0000 else num)
      && (if b == 2 && num == 0 then |t| == 1 else |t| >= 2 && |t| % 2 == 0)
      && ((b == 2 && num != 0) || |t| > 2 ==> NumberIn(t, b) >= Power(b, |t| - 2))
  {
    BitsWritten(num, base);
    hide *;
    if base == 16 {
      HexadecimalBits(AsUnsigned(num));
    } else {
      BinaryBits(AsUnsigned(num));
    }
  }

  lemma BitsWritten(num: int, base: nat)
    requires INT_MIN <= num <= INT_MAX && (base == 1 || base == 2 || base == 16)
    ensures var n := AsUnsigned(num);
      && n == (if num < 0 then num + 0x1_0000_0000_0000_0000 else num) && n < BASE && (n == 0 <==> num == 0)
      && LtoaText(num, base)
           == if base == 16 then Chars(Fixed(n, 16, Digits16u(n))) else Chars(Fixed(n, 2, BinaryCount(n)))
  {
    BitsText(num, base);
    hide LtoaText, LtoaDigits, Fixed, Chars, Digits16u, BinaryCount;
  }

  lemma HexadecimalBits(n: nat)
    requires n < BASE
    ensures var w := Chars(Fixed(n, 16, Digits16u(n)));
      && AllPrinted(w, 16) && NumberIn(w, 16) == n && |w| % 2 == 0 && |w| >= 2
      && (|w| > 2 ==> n >= Power(16, |w| - 2))
  {
    hide NumberIn, AllPrinted, Fixed, Value;
    ValueOfFixed(n, 16, Digits16u(n));
    PrintedDigits(Fixed(n, 16, Digits16u(n)), 16);
  }

  lemma BinaryBits(n: nat)
    requires n < BASE
    ensures var w := Chars(Fixed(n, 2, BinaryCount(n)));
      && AllPrinted(w, 2) && NumberIn(w, 2) == n
      && (if n == 0 then |w| == 1 else |w| >= 2 && |w| % 2 == 0 && n >= Power(2, |w| - 2))
  {
    hide NumberIn, AllPrinted, Fixed, Value;
    BinaryCounted(n);
    hide BinaryCount;
    ValueOfFixed(n, 2, BinaryCount(n));
    PrintedDigits(Fixed(n, 2, BinaryCount(n)), 2);
  }

  lemma BinaryCounted(n: nat)
    ensures var k := BinaryCount(n);
      n < Power(2, k) && if n == 0 then k == 1 else k >= 2 && k % 2 == 0 && n >= Power(2, k - 2)
  {
    DigitsBound(n, 2);
    var k := |Digits(n, 2)|;
    PowerUnfold(2, k + 1);
    PowerUnfold(2, 1);
    PowerUnfold(2, 0);
    if n > 0 {
      EnoughDigits(n);
      PowerUnfold(2, k - 1);
    }
  }

  /** No fewer digits would do. */
  lemma {:induction false} EnoughDigits(n: nat)
    requires n > 0
    ensures n >= Power(2, |Digits(n, 2)| - 1)
  {
    if n >= 2 {
      Shrinks(n, 2);
      EnoughDigits(n / 2);
      PowerUnfold(2, |Digits(n, 2)| - 1);
    } else {
      PowerUnfold(2, 0);
    }
  }

  // ---- Reading ----

  /** The digits that are read, letters in either case. */
  function Valued(c: byte): (d: nat) {
    if 48 <= c <= 57 then c - 48
    else if 65 <= c <= 90 then c - 55
    else if 97 <= c <= 122 then c - 87
    else 99
  }

  /** The number that such digits write. */
  function NumberRead(w: seq<byte>, base: nat): nat {
    if w == [] then 0 else NumberRead(w[..|w| - 1], base) * base + Valued(w[|w| - 1])
  }

  predicate AllValued(w: seq<byte>, base: nat) {
    w != [] && forall k :: 0 <= k < |w| ==> Valued(w[k]) < base
  }

  lemma ValuedByte(c: byte, base: nat)
    requires Valued(c) < base && (base == 2 || base == 8 || base == 10 || base == 16)
    ensures IsDigit(c, base) && DigitOf(c, base) == Valued(c)
  {
  }

  lemma {:induction false} NumberOfBytes(text: seq<byte>, s: nat, w: seq<byte>, base: nat)
    requires base == 2 || base == 8 || base == 10 || base == 16
    requires s + |w| <= |text| && forall k :: 0 <= k < |w| ==> text[s + k] == w[k] && Valued(w[k]) < base
    ensures Number(text, s, s + |w|, base) == NumberRead(w, base)
    ensures forall k :: s <= k < s + |w| ==> IsDigit(text[k], base)
  {
    if w != [] {
      var n := |w| - 1;
      NumberOfBytes(text, s, w[..n], base);
      ValuedByte(w[n], base);
      hide DigitOf, IsDigit, Valued;
      assert text[s + n] == w[n];
    }
  }

  /** A numeral of digits alone, before a NUL. */
  lemma BytesRead(text: seq<byte>, s: nat, w: seq<byte>, f: Format)
    requires f.base == 2 || f.base == 8 || f.base == 10 || f.base == 16
    requires AllValued(w, f.base) && |text| == s + |w| + 1 && text[s..s + |w|] == w && text[s + |w|] == 0
    ensures RunEnd(text, s, f.base) == s + |w| && GroupedEnd(text, s, f) == s + |w|
    ensures GroupedNumber(text, s, s + |w|, f.base) == NumberRead(w, f.base)
  {
    forall k | 0 <= k < |w|
      ensures text[s + k] == w[k]
    {
      assert text[s..s + |w|][k] == w[k];
    }
    hide NumberRead, Valued, GroupedEnd, GroupedNumber, Number;
    NumberOfBytes(text, s, w, f.base);
    RunEndsAt(text, s, s + |w|, f.base);
    Undivided(text, s, f);
    UndividedNumber(text, s, s + |w|, f.base);
  }

  /** A minus negates. */
  function SignedBy(sign: seq<byte>, v: nat): int {
    if sign == [45] then 0 - v as int else v
  }

  /** The value v of a decimal numeral that ends at e. */
  predicate DecimalResult(v: int, e: nat, r: int, p: nat, e2big: bool) {
    && (e2big <==> v < -0x8000_0000_0000_0000 || v > 0x7FFF_FFFF_FFFF_FFFF)
    && (!e2big ==> r == v && p == e)
  }

  lemma DecimalStart(sign: seq<byte>, t: seq<byte>)
    requires t != [] && 49 <= t[0] <= 57 && (sign == [] || sign == [43] || sign == [45])
    ensures StartOf(sign + t, 0) == Start(sign == [45], 0, |sign|)
  {
    var text := sign + t;
    assert text[|sign|] == t[0] && (sign != [] ==> text[0] == sign[0]);
    ReaderChosen(text, 0);
  }

  /** A numeral is the same behind a sign. */
  lemma DecimalShifted(dividers: bool, sign: seq<byte>, t: seq<byte>)
    requires t != [] && 49 <= t[0] <= 57
    ensures var e := GroupedEnd(t, 0, Format(10, dividers));
      && e > 0
      && NumeralEnd(dividers, sign + t, 0, |sign|) == |sign| + e
      && NumeralValue(dividers, sign + t, 0, |sign|) == GroupedNumber(t, 0, e, 10)
  {
    var f := Format(10, dividers);
    assert GoesOnAt(t, 0, 0, f);
    hide GroupedNumber, EndFrom, GroupLength, GoesOnAt;
    EndShift(sign, t, 0, 0, f);
    var e := GroupedEnd(t, 0, f);
    NumberShift(sign, t, 0, e, 10);
    FirstIncluded(t, f);
  }

  lemma FirstIncluded(t: seq<byte>, f: Format)
    requires GoesOnAt(t, 0, 0, f)
    ensures GroupedEnd(t, 0, f) > 0
  {
  }

  /** A text that starts with a digit other than zero is read as its decimal
      numeral; a plus before it adds nothing, a minus negates it. */
  lemma DecimalRead(dividers: bool, sign: seq<byte>, t: seq<byte>, r: int, p: nat, e2big: bool)
    requires t != [] && 49 <= t[0] <= 57 && (sign == [] || sign == [43] || sign == [45])
    requires AtolFit(dividers, sign + t, 0, r, p, e2big)
    ensures var e := GroupedEnd(t, 0, Format(10, dividers));
      var v := GroupedNumber(t, 0, e, 10);
      e > 0 && DecimalResult(SignedBy(sign, v), |sign| + e, r, p, e2big)
  {
    DecimalStart(sign, t);
    DecimalShifted(dividers, sign, t);
    hide StartOf, NumeralEnd, NumeralValue, GroupedNumber, GroupedEnd, AtolFit, CutShort;
    NotCut(dividers, sign + t, |sign|);
    LimitedMeaning(dividers, sign + t, 0, r, p, e2big);
  }

  lemma NotCut(dividers: bool, text: seq<byte>, s: nat)
    requires s < |text|
    ensures !CutShort(dividers, text, 0, s)
  {
  }

  /** Digits alone, before a NUL. */
  lemma DigitsRead(dividers: bool, sign: seq<byte>, w: seq<byte>, r: int, p: nat, e2big: bool)
    requires w != [] && (forall k :: 0 <= k < |w| ==> 48 <= w[k] <= 57) && w[0] != 48
    requires sign == [] || sign == [43] || sign == [45]
    requires AtolFit(dividers, sign + (w + [0]), 0, r, p, e2big)
    ensures var v := NumberRead(w, 10);
      DecimalResult(SignedBy(sign, v), |sign| + |w|, r, p, e2big)
  {
    var f := Format(10, dividers);
    PlainDigits(w, f);
    hide *;
    DecimalRead(dividers, sign, w + [0], r, p, e2big);
  }

  lemma PlainDigits(w: seq<byte>, f: Format)
    requires f.base == 10 && w != [] && (forall k :: 0 <= k < |w| ==> 48 <= w[k] <= 57) && w[0] != 48
    ensures var t := w + [0];
      t != [] && 49 <= t[0] <= 57 && GroupedEnd(t, 0, f) == |w| && GroupedNumber(t, 0, |w|, 10) == NumberRead(w, 10)
  {
    var t := w + [0];
    assert AllValued(w, 10) && t[0..0 + |w|] == w && t[|w|] == 0 && t[0] == w[0];
    hide NumberRead, GroupedNumber, GroupedEnd, AllValued, RunEnd;
    BytesRead(t, 0, w, f);
  }

  /** Nothing is read where no digit stands and no prefix: not even a sign is
      consumed. */
  lemma NothingRead(dividers: bool, text: seq<byte>, pos: nat, r: int, p: nat, e2big: bool)
    requires AtolFit(dividers, text, pos, r, p, e2big)
    requires var q := if At(text, pos) == 45 || At(text, pos) == 43 then pos + 1 else pos;
      !(48 <= At(text, q) <= 57) && At(text, q) !in [66, 98, 88, 120]
    ensures r == 0 && p == pos && !e2big
  {
    ReaderChosen(text, pos);
    var s, f := StartOf(text, pos).s, Format(10, dividers);
    assert s < |text| && !GoesOnAt(text, s, s, f);
    assert GroupedEnd(text, s, f) == s && GroupedNumber(text, s, s, 10) == 0;
    hide StartOf, GroupedNumber, EndFrom, GroupLength;
    LimitedMeaning(dividers, text, pos, r, p, e2big);
  }

  // ---- Prefixes ----

  /** The bytes that choose a base, behind the sign. */
  predicate Chooses(front: seq<byte>, base: nat) {
    match base
    case 8 => front == [48]
    case 2 => front == [48, 98] || front == [48, 66]
    case 16 => front == [48, 120] || front == [48, 88]
    case _ => false
  }

  function ReaderOf(base: nat): nat {
    if base == 8 then 1 else if base == 2 then 2 else 3
  }

  /** The value v of a numeral in another base that ends at e: 64 bits, of which
      the top one is the sign, or a magnitude behind a minus. */
  predicate BitsResult(v: nat, negative: bool, e: nat, r: int, p: nat, e2big: bool) {
    && (e2big <==> v >= if negative then 0x8000_0000_0000_0001 else 0x1_0000_0000_0000_0000)
    && (!e2big ==> p == e)
    && (!e2big ==> r == if negative then 0 - v as int
                        else if v < 0x8000_0000_0000_0000 then v else v - 0x1_0000_0000_0000_0000)
  }

  lemma PrefixStart(sign: seq<byte>, front: seq<byte>, w: seq<byte>, base: nat)
    requires (sign == [] || sign == [43] || sign == [45]) && Chooses(front, base) && AllValued(w, base)
    ensures StartOf(sign + front + w + [0], 0) == Start(sign == [45], ReaderOf(base), |sign| + |front|)
  {
    var text, m := sign + front + w + [0], |sign|;
    assert text[m] == 48 && (m > 0 ==> text[0] == sign[0]);
    assert |front| == 2 ==> text[m + 1] == front[1];
    assert |front| == 1 ==> text[m + 1] == w[0];
    ReaderChosen(text, 0);
  }

  /** The numeral of the chosen reader: the binary one starts behind a zero, which
      changes nothing. */
  lemma PrefixNumeral(dividers: bool, text: seq<byte>, s: nat, w: seq<byte>, base: nat)
    requires (base == 2 || base == 8 || base == 16) && AllValued(w, base)
    requires |text| == s + |w| + 1 && text[s..s + |w|] == w && text[s + |w|] == 0
    ensures NumeralEnd(dividers, text, ReaderOf(base), s) == s + |w|
    ensures NumeralValue(dividers, text, ReaderOf(base), s) == NumberRead(w, base)
    ensures base == 16 ==> DigitsStart(text, 3, s) == s
  {
    var f := FormatOf(dividers, ReaderOf(base));
    assert text[s] == text[s..s + |w|][0] && (|w| > 1 ==> text[s + 1] == text[s..s + |w|][1]);
    hide NumberRead, GroupedNumber, EndFrom, RunEnd;
    BytesRead(text, s, w, f);
    if base == 2 && w[0] == 48 {
      assert BinaryStart(text, s) == s + 1;
      ZeroSkipped(text, s, s + |w|, f);
    }
  }

  lemma ZeroSkipped(text: seq<byte>, s: nat, e: nat, f: Format)
    requires f.base == 2 && s < e < |text| && text[s] == 48 && text[e] == 0 && RunEnd(text, s, 2) == e
    ensures GroupedEnd(text, s + 1, f) == e
    ensures GroupedNumber(text, s + 1, e, 2) == GroupedNumber(text, s, e, 2)
  {
    RunEndsAt(text, s + 1, e, 2);
    Undivided(text, s + 1, f);
    UndividedNumber(text, s, e, 2);
    UndividedNumber(text, s + 1, e, 2);
    hide RunEnd, GroupedNumber, EndFrom;
    ZeroFirst(text, s, e);
  }

  lemma {:induction false} ZeroFirst(text: seq<byte>, s: nat, e: nat)
    requires s < e <= |text| && text[s] == 48
    ensures Number(text, s, e, 2) == Number(text, s + 1, e, 2)
    decreases e
  {
    if s + 1 < e {
      ZeroFirst(text, s, e - 1);
    }
  }

  lemma NeverCut(dividers: bool, text: seq<byte>, s: nat, base: nat)
    requires s < |text| && (base == 2 || base == 8 || base == 16)
    requires base == 8 ==> RunEnd(text, s, 8) == |text| - 1 && text[|text| - 1] == 0
    ensures !CutShort(dividers, text, ReaderOf(base), s)
  {
    if base == 8 {
      var f := Format(8, dividers);
      Undivided(text, s, f);
      hide GroupedNumber, EndFrom, RunEnd;
      forall k | s <= k < GroupedEnd(text, s, f)
        ensures !FullDividerAt(text, s, k, f)
      {
        assert IsDigit(text[k], 8);
      }
    }
  }

  lemma PrefixFacts(dividers: bool, sign: seq<byte>, front: seq<byte>, w: seq<byte>, base: nat)
    requires (sign == [] || sign == [43] || sign == [45]) && Chooses(front, base) && AllValued(w, base)
    ensures var text, s := sign + front + w + [0], |sign| + |front|;
      && s < |text| && w != [] && (base == 2 || base == 8 || base == 16)
      && StartOf(text, 0) == Start(sign == [45], ReaderOf(base), s)
      && NumeralEnd(dividers, text, ReaderOf(base), s) == s + |w|
      && NumeralValue(dividers, text, ReaderOf(base), s) == NumberRead(w, base)
      && (base == 16 ==> DigitsStart(text, 3, s) == s)
      && !CutShort(dividers, text, ReaderOf(base), s)
  {
    var text, s := sign + front + w + [0], |sign| + |front|;
    assert text[s..s + |w|] == w && text[s + |w|] == 0;
    PrefixStart(sign, front, w, base);
    hide StartOf, NumeralEnd, NumeralValue, NumberRead, GroupedNumber, GroupedEnd, CutShort, RunEnd, DigitsStart;
    PrefixNumeral(dividers, text, s, w, base);
    BytesRead(text, s, w, Format(base, dividers));
    NeverCut(dividers, text, s, base);
  }

  /** Behind 0, 0b or 0x, and a sign before that, digits of base 8, 2 or 16 are
      read in that base, the letters in either case. */
  lemma PrefixedRead(dividers: bool, sign: seq<byte>, front: seq<byte>, w: seq<byte>, base: nat,
                     r: int, p: nat, e2big: bool)
    requires (sign == [] || sign == [43] || sign == [45]) && Chooses(front, base) && AllValued(w, base)
    requires AtolFit(dividers, sign + front + w + [0], 0, r, p, e2big)
    ensures BitsResult(NumberRead(w, base), sign == [45], |sign| + |front| + |w|, r, p, e2big)
  {
    PrefixFacts(dividers, sign, front, w, base);
    hide StartOf, NumeralEnd, NumeralValue, NumberRead, AtolFit, CutShort, DigitsStart, AllValued, Chooses;
    if sign == [45] {
      LimitedMeaning(dividers, sign + front + w + [0], 0, r, p, e2big);
    } else {
      UnlimitedMeaning(dividers, sign + front + w + [0], 0, r, p, e2big);
    }
  }

  /** What fio_atol16u makes of hexadecimal digits, behind 0x or without it. */
  lemma HexadecimalRead(front: seq<byte>, w: seq<byte>, r: nat, p: nat, e2big: bool)
    requires (front == [] || front == [48, 120] || front == [48, 88]) && AllValued(w, 16)
    requires HexFit(front + w + [0], 0, r, p, e2big)
    ensures e2big <==> NumberRead(w, 16) >= 0x1_0000_0000_0000_0000
    ensures !e2big ==> r == NumberRead(w, 16) && p == |front| + |w|
  {
    HexadecimalFront(front, w);
    HexadecimalDigits(front + w + [0], |front|, w, r, p, e2big);
  }

  lemma HexadecimalDigits(text: seq<byte>, s: nat, w: seq<byte>, r: nat, p: nat, e2big: bool)
    requires AllValued(w, 16) && |w| > 0 && |text| == s + |w| + 1 && text[s..s + |w|] == w && text[s + |w|] == 0
    requires s == (if HasPrefix(text, 0, LOWER_X) then 2 else 0) && HexFit(text, 0, r, p, e2big)
    ensures e2big <==> NumberRead(w, 16) >= 0x1_0000_0000_0000_0000
    ensures !e2big ==> r == NumberRead(w, 16) && p == s + |w|
  {
    hide NumberRead, RunEnd, Number, GroupedNumber, GroupedEnd, HasPrefix, AllValued, LongestFit;
    BytesRead(text, s, w, Format(16, false));
    UndividedNumber(text, s, s + |w|, 16);
    WholeRun(text, s, 16, r, p, e2big);
  }

  lemma HexadecimalFront(front: seq<byte>, w: seq<byte>)
    requires (front == [] || front == [48, 120] || front == [48, 88]) && AllValued(w, 16)
    ensures var text, s := front + w + [0], |front|;
      && text[s..s + |w|] == w && text[s + |w|] == 0 && |text| == s + |w| + 1 && |w| > 0
      && s == (if HasPrefix(text, 0, LOWER_X) then 2 else 0)
  {
    var text, s := front + w + [0], |front|;
    assert text[s] == w[0] && (|w| > 1 ==> text[s + 1] == w[1]) && (s == 2 ==> text[0] == 48 && text[1] == front[1]);
    PrefixBytes(text, 0);
  }

  lemma WholeRun(text: seq<byte>, i: nat, base: nat, r: nat, p: nat, e2big: bool)
    requires i <= |text| && base >= 1 && LongestFit(text, i, base, r, p, e2big)
    ensures var e := RunEnd(text, i, base);
      && (e2big <==> Number(text, i, e, base) >= 0x1_0000_0000_0000_0000)
      && (!e2big ==> p == e && r == Number(text, i, e, base))
  {
    OverflowIsExact(text, i, base, r, p, e2big);
  }

  /** Behind 0x without a digit only the zero is consumed, and without either
      nothing. */
  lemma HexadecimalMissing(text: seq<byte>, r: nat, p: nat, e2big: bool)
    requires |text| > 2 && HexFit(text, 0, r, p, e2big)
    ensures text[0] == 48 && (text[1] == 88 || text[1] == 120) && TableDigit(text[2]) > 15
      ==> r == 0 && p == 1 && !e2big
    ensures TableDigit(text[0]) > 15 ==> r == 0 && p == 0 && !e2big
  {
    PrefixBytes(text, 0);
  }
}
