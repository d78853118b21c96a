/** Where the digit table of fio_c2i departs from its documentation, and what the
    readers make of it. */
module DocumentedDigits {
  import opened Bytes
  import opened Words
  import opened Numerals
  import opened Parsers
  import opened Dividers
  import opened GroupedReaders
  import opened TextToNumber
  import opened AtolMeaning

  /** The documented map: the decimal digits and the letters of either case, and
      255 for every other byte. */
  function AlphaNumeric(c: byte): (d: nat) {
    if 48 <= c <= 57 then c - 48
    else if 65 <= c <= 90 then c - 55
    else if 97 <= c <= 122 then c - 87
    else 255
  }

  /** Ten control bytes stand for the decimal digits as well. */
  predicate Stray(c: byte) {
    16 <= c <= 25
  }

  lemma TableExactly(c: byte)
    ensures TableDigit(c) == AlphaNumeric(c) <==> !Stray(c)
  {
  }

  /** A control byte that a reader takes for a digit of its base. */
  predicate StrayDigit(c: byte, base: nat) {
    Stray(c) && IsDigit(c, base)
  }

  /** A text as the documentation has it read: the control bytes replaced by one
      that is no digit. */
  function Documented(text: seq<byte>): (t: seq<byte>)
    ensures |t| == |text| && forall k :: 0 <= k < |t| ==> t[k] == DocumentedByte(text[k])
  {
    seq(|text|, k requires 0 <= k < |text| => DocumentedByte(text[k]))
  }

  function DocumentedByte(c: byte): byte {
    if Stray(c) then 26 else c
  }

  /** The table maps such a text as documented. */
  lemma DocumentedMap(c: byte, base: nat)
    requires base <= 36
    ensures TableDigit(DocumentedByte(c)) == AlphaNumeric(c)
    ensures IsDigit(c, base) <==> IsDigit(DocumentedByte(c), base) || StrayDigit(c, base)
    ensures !StrayDigit(c, base) && IsDigit(c, base) ==> DigitOf(DocumentedByte(c), base) == DigitOf(c, base)
    ensures StrayDigit(c, base) ==> !IsDigit(DocumentedByte(c), base) && base != 2 && base != 10
  {
  }

  // ---- Numerals ----

  /** Before the first stray digit nothing differs. */
  lemma {:induction false} SameSoFar(text: seq<byte>, i: nat, p: nat, base: nat)
    requires i <= p <= |text| && base <= 36 && forall k :: i <= k < p ==> !StrayDigit(text[k], base)
    ensures GroupLength(Documented(text), i, p, base) == GroupLength(text, i, p, base)
    ensures GroupedNumber(Documented(text), i, p, base) == GroupedNumber(text, i, p, base)
    decreases p
  {
    if i < p {
      SameSoFar(text, i, p - 1, base);
      DocumentedMap(text[p - 1], base);
    }
  }

  /** The end of the documented numeral. */
  function DocumentedEnd(text: seq<byte>, i: nat, f: Format): (e: nat)
    requires i <= |text|
    ensures i <= e <= |text|
  {
    GroupedEnd(Documented(text), i, f)
  }

  predicate StrayAt(text: seq<byte>, p: nat, base: nat) {
    p < |text| && StrayDigit(text[p], base)
  }

  lemma NoStrayBefore(text: seq<byte>, i: nat, f: Format, k: nat)
    requires i <= k < |text| && f.base <= 36 && k < DocumentedEnd(text, i, f)
    ensures !StrayDigit(text[k], f.base)
  {
    DocumentedMap(text[k], f.base);
    assert GoesOnAt(Documented(text), i, k, f);
  }

  lemma GoesOnSame(text: seq<byte>, i: nat, k: nat, f: Format)
    requires i <= k <= |text| && f.base <= 36 && k <= DocumentedEnd(text, i, f)
    ensures GoesOnAt(text, i, k, f) <==> GoesOnAt(Documented(text), i, k, f) || StrayAt(text, k, f.base)
    ensures GroupedNumber(text, i, k, f.base) == GroupedNumber(Documented(text), i, k, f.base)
  {
    forall j | i <= j < k
      ensures !StrayDigit(text[j], f.base)
    {
      NoStrayBefore(text, i, f, j);
    }
    SameSoFar(text, i, k, f.base);
    if k < |text| {
      DocumentedMap(text[k], f.base);
    }
  }

  /** The numeral that is read ends where the documented one does, exactly if no
      stray digit stands there; otherwise it goes on. */
  lemma EndExactly(text: seq<byte>, i: nat, f: Format)
    requires i <= |text| && f.base <= 36
    ensures var e := DocumentedEnd(text, i, f);
      && GroupedEnd(text, i, f) >= e
      && (GroupedEnd(text, i, f) == e <==> !StrayAt(text, e, f.base))
  {
    var e := DocumentedEnd(text, i, f);
    forall k | i <= k < e
      ensures GoesOnAt(text, i, k, f)
    {
      GoesOnSame(text, i, k, f);
    }
    ReachesBeyond(text, i, f, e);
    GoesOnSame(text, i, e, f);
    if !StrayAt(text, e, f.base) {
      EndsAt(text, i, i, e, f);
    }
  }

  /** The same for a digit run without dividers. */
  lemma RunEndExactly(text: seq<byte>, i: nat, base: nat)
    requires i <= |text| && base <= 36
    ensures var e := RunEnd(Documented(text), i, base);
      && RunEnd(text, i, base) >= e
      && (RunEnd(text, i, base) == e <==> !StrayAt(text, e, base))
  {
    var f := Format(base, false);
    Undivided(text, i, f);
    Undivided(Documented(text), i, f);
    EndExactly(text, i, f);
  }

  // ---- Readers ----

  lemma SameNumber(text: seq<byte>, i: nat, p: nat, base: nat)
    requires i <= |text| && base <= 36 && i <= p <= RunEnd(Documented(text), i, base)
    ensures Number(Documented(text), i, p, base) == Number(text, i, p, base)
    ensures p <= RunEnd(text, i, base)
  {
    var f := Format(base, false);
    Undivided(text, i, f);
    Undivided(Documented(text), i, f);
    EndExactly(text, i, f);
    GoesOnSame(text, i, p, f);
    UndividedNumber(text, i, p, base);
    UndividedNumber(Documented(text), i, p, base);
  }

  /** A reader of the longest prefix that fits does as documented, exactly if no
      stray digit stands at the end of the documented run, or the run does not
      fit before that. */
  lemma LongestFitExactly(text: seq<byte>, i: nat, base: nat, r: nat, p: nat, e2big: bool)
    requires i <= |text| && 1 <= base <= 36 && LongestFit(text, i, base, r, p, e2big)
    ensures var t := Documented(text); var e := RunEnd(t, i, base);
      LongestFit(t, i, base, r, p, e2big) <==> !StrayAt(text, e, base) || Number(t, i, e, base) >= BASE
  {
    var t := Documented(text);
    var e := RunEnd(t, i, base);
    RunEndExactly(text, i, base);
    hide Number, RunEnd;
    SameNumber(text, i, e, base);
    if p < e {
      SameNumber(text, i, p, base);
      SameNumber(text, i, p + 1, base);
      NumberGrows(t, i, p + 1, e, base);
    } else {
      NumberGrows(text, i, e, p, base);
    }
  }

  /** The hexadecimal reader, with its prefix. */
  lemma HexFitExactly(text: seq<byte>, pos: nat, r: nat, p: nat, e2big: bool)
    requires pos <= |text| && HexFit(text, pos, r, p, e2big)
    ensures var t := Documented(text); var s := if HasPrefix(t, pos, LOWER_X) then pos + 2 else pos;
      var e := RunEnd(t, s, 16);
      HexFit(t, pos, r, p, e2big) <==> !StrayAt(text, e, 16) || Number(t, s, e, 16) >= BASE
  {
    var t := Documented(text);
    var s := if HasPrefix(t, pos, LOWER_X) then pos + 2 else pos;
    var e := RunEnd(t, s, 16);
    assert HasPrefix(t, pos, LOWER_X) <==> HasPrefix(text, pos, LOWER_X);
    RunEndExactly(text, s, 16);
    assert Number(t, s, s, 16) == 0;
    if RunEnd(text, s, 16) > s {
      NotEmpty(text, s, r, p, e2big);
      LongestFitExactly(text, s, 16, r, p, e2big);
    }
  }

  lemma NotEmpty(text: seq<byte>, s: nat, r: nat, p: nat, e2big: bool)
    requires s <= |text| && RunEnd(text, s, 16) > s && LongestFit(text, s, 16, r, p, e2big)
    ensures p > s
  {
    assert Number(text, s, s + 1, 16) == DigitOf(text[s], 16);
  }

  /** What the octal reader has read before a stray digit. */
  lemma OctalSame(dividers: bool, text: seq<byte>, i: nat, r: nat, p: nat, e2big: bool)
    requires i <= |text| && OctalFit(dividers, text, i, r, p, e2big)
    requires var e := DocumentedEnd(text, i, Format(8, dividers)); p <= e && (p < e || !StrayAt(text, e, 8))
    ensures OctalFit(dividers, Documented(text), i, r, p, e2big)
  {
    var f := Format(8, dividers);
    EndExactly(text, i, f);
    hide GroupedNumber, GroupedEnd;
    GoesOnSame(text, i, p, f);
    if p < |text| {
      DocumentedMap(text[p], 8);
      if p < DocumentedEnd(text, i, f) {
        NoStrayBefore(text, i, f, p);
      }
    }
    if i < p {
      DocumentedMap(text[p - 1], 8);
      NoStrayBefore(text, i, f, p - 1);
    }
  }

  /** Reading on at least to the end of the documented numeral, it was not cut. */
  lemma OctalNotCut(dividers: bool, text: seq<byte>, i: nat, r: nat, p: nat, e2big: bool)
    requires i <= |text| && OctalFit(dividers, text, i, r, p, e2big)
    requires p >= DocumentedEnd(text, i, Format(8, dividers))
    ensures var t, f := Documented(text), Format(8, dividers);
      !FullAtDivider(t, i, f) && GroupedNumber(t, i, DocumentedEnd(text, i, f), 8) < BASE
  {
    var t, f := Documented(text), Format(8, dividers);
    var e := DocumentedEnd(text, i, f);
    hide GroupedNumber, GroupedEnd, SkippedAt;
    GoesOnSame(text, i, e, f);
    GroupedGrows(text, i, e, p, 8);
    forall k | i <= k < e
      ensures !FullDividerAt(t, i, k, f)
    {
      GoesOnSame(text, i, k, f);
      GroupedGrows(text, i, k, p, 8);
      if 8 * r >= BASE {
        GroupedScales(text, i, k, p, 8);
      }
    }
  }

  /** The octal reader does as documented, exactly if no stray digit stands at the
      end of the documented numeral, or it stops before that. */
  lemma OctalFitExactly(dividers: bool, text: seq<byte>, i: nat, r: nat, p: nat, e2big: bool)
    requires i <= |text| && OctalFit(dividers, text, i, r, p, e2big)
    ensures var t, f := Documented(text), Format(8, dividers); var e := DocumentedEnd(text, i, f);
      var stops := GroupedNumber(t, i, e, 8) >= BASE || FullAtDivider(t, i, f);
      OctalFit(dividers, t, i, r, p, e2big) <==> !StrayAt(text, e, 8) || stops
  {
    var t, f := Documented(text), Format(8, dividers);
    var e := DocumentedEnd(text, i, f);
    EndExactly(text, i, f);
    hide GroupedNumber, GroupedEnd, FullAtDivider;
    if p < e || (p == e && !StrayAt(text, e, 8)) {
      OctalSame(dividers, text, i, r, p, e2big);
      OctalOverflowIsExact(dividers, t, i, r, p, e2big);
    } else {
      OctalNotCut(dividers, text, i, r, p, e2big);
      if p == e {
        DocumentedMap(text[e], 8);
      }
    }
  }

  /** The decimal and the binary reader always do. */
  lemma DecimalFitSame(dividers: bool, text: seq<byte>, i: nat, r: nat, p: nat, e2big: bool)
    requires i <= |text|
    ensures DecimalFit(dividers, text, i, r, p, e2big) <==> DecimalFit(dividers, Documented(text), i, r, p, e2big)
    ensures !StrayAt(text, DocumentedEnd(text, i, Format(10, dividers)), 10)
  {
    var f := Format(10, dividers);
    EndExactly(text, i, f);
    hide GroupedNumber, GroupedEnd;
    var e := DocumentedEnd(text, i, f);
    if i <= p <= e {
      GoesOnSame(text, i, p, f);
      if p < e {
        GoesOnSame(text, i, p + 1, f);
      }
    }
  }

  lemma GroupedFitSame(dividers: bool, text: seq<byte>, i: nat, r: nat, p: nat, e2big: bool)
    requires i <= |text|
    ensures var f := Format(2, dividers);
      GroupedFit(text, i, f, r, p, e2big) <==> GroupedFit(Documented(text), i, f, r, p, e2big)
    ensures !StrayAt(text, DocumentedEnd(text, i, Format(2, dividers)), 2)
  {
    var f := Format(2, dividers);
    EndExactly(text, i, f);
    hide GroupedNumber, GroupedEnd;
    var e := DocumentedEnd(text, i, f);
    if i <= p <= e {
      GoesOnSame(text, i, p, f);
      if p < e {
        GoesOnSame(text, i, p + 1, f);
      }
    }
  }

  /** The readers of fio_atol: each does as documented, exactly if no stray digit
      stands at the end of the documented numeral, or it stops before that. */
  lemma ReaderAsDocumented(dividers: bool, text: seq<byte>, reader: nat, s: nat, u: nat, q: nat, err: bool)
    requires s < |text| && reader < 4 && Reads(dividers, text, reader, s, u, q, err)
    ensures var t, f := Documented(text), FormatOf(dividers, reader);
      var e := DocumentedEnd(text, DigitsStart(t, reader, s), f);
      var stops := NumeralValue(dividers, t, reader, s) >= BASE || CutShort(dividers, t, reader, s);
      Reads(dividers, t, reader, s, u, q, err) <==> !StrayAt(text, e, f.base) || stops
  {
    var t, f := Documented(text), FormatOf(dividers, reader);
    var i := DigitsStart(t, reader, s);
    StartSame(text, reader, s);
    hide GroupedNumber, GroupedEnd, Number, RunEnd, FullAtDivider, DecimalFit, OctalFit, HexFit, GroupedFit;
    if reader == 0 {
      DecimalFitSame(dividers, text, i, u, q, err);
    } else if reader == 1 {
      OctalFitExactly(dividers, text, i, u, q, err);
    } else if reader == 2 {
      GroupedFitSame(dividers, text, i, u, q, err);
    } else {
      Undivided(t, i, f);
      UndividedNumber(t, i, RunEnd(t, i, 16), 16);
      HexFitExactly(text, s, u, q, err);
    }
  }

  lemma StartSame(text: seq<byte>, reader: nat, s: nat)
    requires s < |text|
    ensures DigitsStart(Documented(text), reader, s) == DigitsStart(text, reader, s)
    ensures BinaryStart(Documented(text), s) == BinaryStart(text, s)
  {
  }

  // ---- Inputs that are read otherwise ----

  /** The byte 17 alone is read as the hexadecimal number 1. */
  lemma StrayHexadecimal(r: nat, p: nat, e2big: bool)
    requires LongestFit([17], 0, 16, r, p, e2big)
    ensures r == 1 && p == 1 && !e2big
  {
    var t: seq<byte> := [17];
    assert RunEnd(t, 0, 16) == 1 && Number(t, 0, 0, 16) == 0 && Number(t, 0, 1, 16) == 1;
  }

  /** A zero and the byte 17 are read by fio_atol as the octal number 1. */
  lemma StrayOctal(dividers: bool, r: int, p: nat, e2big: bool)
    requires AtolFit(dividers, [48, 17, 0], 0, r, p, e2big)
    ensures r == 1 && p == 2 && !e2big
  {
    var t: seq<byte> := [48, 17, 0];
    var f := Format(8, dividers);
    assert StartOf(t, 0) == Start(false, 1, 1);
    EndsAt(t, 1, 1, 2, f);
    assert GroupedNumber(t, 1, 1, 8) == 0 && GroupedNumber(t, 1, 2, 8) == 1;
    hide StartOf, GroupedEnd, GroupedNumber;
    var u: nat, q: nat, err: bool :|
      u < BASE && Reads(dividers, t, 1, 1, u, q, err) && p == q && r == AsSigned(u) && e2big == err;
  }
}
