/** The reader for any base, and the signed reader fio_atol that chooses among
    all of them. */
module TextToNumber {
  import opened Bytes
  import opened Words
  import opened Modular
  import opened Bitwise
  import opened Numerals
  import opened Parsers
  import opened Dividers
  import opened GroupedReaders

  // ---- Any base ----

  /** The limit that fio_atol_xbase tests its number against. */
  function Limit(base: nat): nat
    requires base >= 1
  {
    MAX / base
  }

  /** A prefix of the run equals the limit that the reader tests against, and the
      digit after it does not fit. */
  ghost predicate Wraps(text: seq<byte>, i: nat, base: nat)
    requires i <= |text| && base >= 1
  {
    exists k :: i <= k < RunEnd(text, i, base) && WrapsAt(text, i, k, base)
  }

  ghost predicate WrapsAt(text: seq<byte>, i: nat, k: nat, base: nat)
    requires i <= k < |text| && base >= 1
  {
    Number(text, i, k, base) == Limit(base) && Number(text, i, k + 1, base) >= BASE
  }

  /** Below the limit another digit fits, above it none does. */
  lemma LimitMeans(r: nat, d: nat, base: nat)
    requires base >= 1 && d < base
    ensures r < Limit(base) ==> r * base + d < BASE
    ensures r > Limit(base) ==> r * base + d >= BASE
    ensures r <= Limit(base) ==> r * base <= MAX
  {
    var limit := Limit(base);
    DivSplit(MAX, base);
    if r <= limit {
      MulNonNegative(limit - r, base);
      assert (limit - r) * base == limit * base - r * base;
      if r < limit {
        MulNonNegative(limit - r - 1, base);
        assert (limit - r - 1) * base == limit * base - r * base - base;
      }
    } else {
      MulNonNegative(r - limit - 1, base);
      assert (r - limit - 1) * base == r * base - limit * base - base;
    }
  }

  ghost predicate NoWrapBefore(text: seq<byte>, i: nat, p: nat, base: nat)
    requires i <= p <= |text| && base >= 1
  {
    forall k :: i <= k < p ==> !WrapsAt(text, i, k, base)
  }

  lemma WrapFound(text: seq<byte>, i: nat, p: nat, base: nat)
    requires i <= p < |text| && base >= 1 && p < RunEnd(text, i, base)
    ensures WrapsAt(text, i, p, base) ==> Wraps(text, i, base)
    ensures NoWrapBefore(text, i, p + 1, base) <==> NoWrapBefore(text, i, p, base) && !WrapsAt(text, i, p, base)
  {
    if NoWrapBefore(text, i, p + 1, base) {
      assert !WrapsAt(text, i, p, base);
    }
  }

  /** Leaving the loop without a wrap. */
  lemma NoWrap(text: seq<byte>, i: nat, r: nat, p: nat, base: nat)
    requires i <= p <= |text| && 1 <= base <= 36 && p <= RunEnd(text, i, base)
    requires r == Number(text, i, p, base) < BASE && (p < RunEnd(text, i, base) ==> r > Limit(base))
    requires NoWrapBefore(text, i, p, base)
    ensures LongestFit(text, i, base, r, p, p < RunEnd(text, i, base)) && !Wraps(text, i, base)
  {
    if p < RunEnd(text, i, base) {
      NextDigit(text, i, p, base);
      LimitMeans(r, DigitOf(text[p], base), base);
    }
    forall k | p <= k < RunEnd(text, i, base)
      ensures !WrapsAt(text, i, k, base)
    {
      NumberGrows(text, i, p, k, base);
    }
  }

  /** What holds before each digit is read: the number is exact, unless a prefix
      has wrapped. */
  ghost predicate XbaseInv(text: seq<byte>, i: nat, r: nat, p: nat, base: nat)
    requires i <= p <= |text| && base >= 1
  {
    if Wraps(text, i, base) && !NoWrapBefore(text, i, p, base) then Number(text, i, p, base) >= BASE
    else r == Number(text, i, p, base) && NoWrapBefore(text, i, p, base)
  }

  /** The loop itself: it stops where the run ends, or above the limit. The bases 2
      and 10 never reach it, their readers have other digit tests. */
  method XbaseScan(text: seq<byte>, pos: nat, base: nat) returns (r: nat, p: nat)
    requires pos < |text| && Terminated(text, pos) && 1 <= base <= 36 && base != 2 && base != 10
    ensures pos <= p <= RunEnd(text, pos, base) < |text| && r < BASE
    ensures XbaseInv(text, pos, r, p, base) && (p < RunEnd(text, pos, base) ==> r > Limit(base))
  {
    XbaseStart(text, pos, base);
    hide *;
    RunStops(text, pos, base);
    r, p := 0, pos;
    while DigitOf(text[p], base) < base
      invariant pos <= p <= RunEnd(text, pos, base) < |text|
      invariant r <= Limit(base) && XbaseInv(text, pos, r, p, base)
      decreases |text| - p
    {
      RunContinues(text, pos, p, base);
      r := XbaseStep(text, pos, p, base, r);
      p := p + 1;
      if r > Limit(base) {
        return;
      }
    }
    RunContinues(text, pos, p, base);
    LimitFits(base);
  }

  lemma RunContinues(text: seq<byte>, i: nat, p: nat, base: nat)
    requires i <= p < |text| && p <= RunEnd(text, i, base)
    ensures p < RunEnd(text, i, base) <==> DigitOf(text[p], base) < base
  {
    RunGoesOn(text, i, p, base);
  }

  lemma XbaseStart(text: seq<byte>, pos: nat, base: nat)
    requires pos <= |text| && base >= 1
    ensures XbaseInv(text, pos, 0, pos, base) && Limit(base) >= 0
  {
  }

  lemma LimitFits(base: nat)
    requires base >= 1
    ensures Limit(base) < BASE
  {
    DivSplit(MAX, base);
    Scaled(MAX / base, base);
  }

  /** fio_atol_xbase for the bases without a reader of their own. It reads the
      longest prefix that fits and reports overflow exactly, if and only if no
      prefix wraps. */
  method AtolXbaseLoop(text: seq<byte>, pos: nat, base: nat) returns (r: nat, p: nat, e2big: bool)
    requires pos < |text| && Terminated(text, pos) && 1 <= base <= 36 && base != 2 && base != 10
    ensures pos <= p <= RunEnd(text, pos, base) && r < BASE && (e2big <==> p < RunEnd(text, pos, base))
    ensures LongestFit(text, pos, base, r, p, e2big) <==> !Wraps(text, pos, base)
  {
    hide RunEnd, Terminated, XbaseInv, Wraps, LongestFit, DigitOf, Limit;
    r, p := XbaseScan(text, pos, base);
    RunContinues(text, pos, p, base);
    e2big := DigitOf(text[p], base) < base;
    XbaseDone(text, pos, r, p, base);
  }

  /** After the loop. */
  lemma XbaseDone(text: seq<byte>, i: nat, r: nat, p: nat, base: nat)
    requires i <= p <= |text| && 1 <= base <= 36 && p <= RunEnd(text, i, base) && r < BASE
    requires XbaseInv(text, i, r, p, base) && (p < RunEnd(text, i, base) ==> r > Limit(base))
    ensures LongestFit(text, i, base, r, p, p < RunEnd(text, i, base)) <==> !Wraps(text, i, base)
  {
    if r == Number(text, i, p, base) && NoWrapBefore(text, i, p, base) {
      NoWrap(text, i, r, p, base);
    } else {
      hide Number;
      assert Wraps(text, i, base);
    }
  }

  /** r *= base; r += d; both modulo 2 to the 64. */
  method XbaseStep(text: seq<byte>, ghost pos: nat, p: nat, base: nat, r: nat) returns (r': nat)
    requires pos <= p < |text| && p < RunEnd(text, pos, base) && 1 <= base <= 36
    requires r <= Limit(base) && XbaseInv(text, pos, r, p, base)
    ensures r' < BASE && XbaseInv(text, pos, r', p + 1, base)
  {
    hide Number, RunEnd, Limit, Wraps, NoWrapBefore, DigitOf;
    RunGoesOn(text, pos, p, base);
    var d := DigitOf(text[p], base);
    NextDigit(text, pos, p, base);
    WrapFound(text, pos, p, base);
    LimitMeans(r, d, base);
    Scaled(Number(text, pos, p, base), base);
    MulNonNegative(r, base);
    r' := (r * base % BASE + d) % BASE;
    if r * base + d < BASE {
      Exact(r * base, d);
    }
  }

  lemma Exact(x: nat, d: nat)
    requires x + d < BASE
    ensures (x % BASE + d) % BASE == x + d
  {
    DivModUnique(x, 0, x, BASE);
    DivModUnique(x + d, 0, x + d, BASE);
  }

  /** Bases that divide 2 to the 64 never wrap. */
  lemma PowersOfTwoNeverWrap(text: seq<byte>, i: nat, base: nat)
    requires i <= |text| && base >= 1 && BASE % base == 0
    ensures !Wraps(text, i, base)
  {
    forall k | i <= k < RunEnd(text, i, base)
      ensures !WrapsAt(text, i, k, base)
    {
      NextDigit(text, i, k, base);
      LastMultiple(base);
    }
  }

  lemma LastMultiple(base: nat)
    requires base >= 1 && BASE % base == 0
    ensures Limit(base) * base + base == BASE
  {
    DivSplit(BASE, base);
    assert MAX == (BASE / base - 1) * base + (base - 1);
    DivModUnique(MAX, BASE / base - 1, base - 1, base);
  }

  /** Every other base has a numeral that wraps: that of the limit with the
      greatest digit after it. */
  lemma OtherBasesWrap(text: seq<byte>, base: nat)
    requires 2 <= base <= 36 && BASE % base != 0
    requires text == Text(Limit(base), base) + [CharOf(base - 1), 0]
    ensures Wraps(text, 0, base)
  {
    ValueOfDigits(Limit(base), base);
    PastLimit(base);
    hide Digits, Value;
    LimitWraps(text, Digits(Limit(base), base), base);
  }

  lemma PastLimit(base: nat)
    requires base >= 1 && BASE % base != 0
    ensures Limit(base) * base + (base - 1) >= BASE
  {
    DivSplit(MAX, base);
    if MAX % base == base - 1 {
      DivModUnique(BASE, MAX / base + 1, 0, base);
    }
  }

  lemma LimitWraps(text: seq<byte>, ds: seq<nat>, base: nat)
    requires 2 <= base <= 36 && text == Chars(ds) + [CharOf(base - 1), 0]
    requires forall k :: 0 <= k < |ds| ==> ds[k] < base
    requires Value(ds, base) == Limit(base) && Limit(base) * base + (base - 1) >= BASE
    ensures Wraps(text, 0, base)
  {
    var n, all := |ds|, ds + [base - 1];
    assert text[0..0 + |all|] == Chars(all);
    hide Number, Value, Chars, Limit, RunEnd;
    NumeralReadsBack(text, 0, all, base);
    ValueSnoc(ds, base - 1, base);
    forall k | 0 <= k < n
      ensures text[0 + k] == CharOf(ds[k])
    {
      assert text[0 + k] == Chars(ds)[k];
    }
    NumberOfText(text, 0, ds, base);
    assert WrapsAt(text, 0, n, base);
  }

  /** What fio_atol_xbase may have read, for each kind of base. */
  ghost predicate XbaseFit(dividers: bool, text: seq<byte>, pos: nat, base: nat, r: nat, p: nat, e2big: bool)
    requires pos < |text| && base >= 1
  {
    if base > 36 then r == 0 && p == pos && !e2big
    else if base == 10 then DecimalFit(dividers, text, pos, r, p, e2big)
    else if base == 16 then HexFit(text, pos, r, p, e2big)
    else if base == 2 then GroupedFit(text, BinaryStart(text, pos), Format(2, dividers), r, p, e2big)
    else && (e2big <==> p < RunEnd(text, pos, base))
         && (LongestFit(text, pos, base, r, p, e2big) <==> !Wraps(text, pos, base))
  }

  /** fio_atol_xbase. Base 0 would divide by zero. */
  method AtolXbase(dividers: bool, text: seq<byte>, pos: nat, base: nat) returns (r: nat, p: nat, e2big: bool)
    requires pos < |text| && Terminated(text, pos) && base >= 1
    ensures XbaseFit(dividers, text, pos, base, r, p, e2big)
  {
    if base > 36 {
      return 0, pos, false;
    }
    if base == 10 {
      r, p, e2big := Atol10u(dividers, text, pos);
      return;
    }
    if base == 16 {
      r, p, e2big := Atol16u(text, pos);
      return;
    }
    if base == 2 {
      r, p, e2big := AtolBin(dividers, text, pos);
      return;
    }
    r, p, e2big := AtolXbaseLoop(text, pos, base);
  }

  // ---- Signed numbers ----

  const INT_MAX: int := 0x7FFF_FFFF_FFFF_FFFF
  const INT_MIN: int := -0x8000_0000_0000_0000

  datatype Signed = Signed(value: int, e2big: bool)

  /** The signed number with the same 64 bits. */
  function AsSigned(u: nat): (i: int)
    requires u < BASE
    ensures INT_MIN <= i <= INT_MAX
  {
    if u < BASE / 2 then u else u - BASE
  }

  lemma Negation(val: nat)
    requires val < BASE
    ensures And(val, 0x8000_0000_0000_0000) == 0 <==> val < BASE / 2
    ensures (0 - val) % BASE == if val == 0 then 0 else BASE - val
  {
    BitRoom(val, 0);
    hide And;
    if val > 0 {
      DivModUnique(0 - val, -1, BASE - val, BASE);
    }
  }

  /** fio_u2i_limit: the value, or its negation, limited to the signed range. */
  function U2iLimit(val: nat, negative: bool): (s: Signed)
    requires val < BASE
    ensures INT_MIN <= s.value <= INT_MAX
    ensures !s.e2big ==> s.value == (if negative then 0 - val as int else val)
    ensures s.e2big <==> (if negative then 0 - val as int < INT_MIN else val > INT_MAX)
    ensures s.e2big ==> s.value == if negative then INT_MIN else INT_MAX
  {
    Negation(val);
    if !negative then
      if And(val, 0x8000_0000_0000_0000) == 0 then Signed(AsSigned(val), false)
      else Signed(AsSigned(0x7FFF_FFFF_FFFF_FFFF), true)
    else if val == 0x8000_0000_0000_0000 then Signed(AsSigned(val), false)
    else if And(val, 0x8000_0000_0000_0000) == 0 then Signed(AsSigned((0 - val) % BASE), false)
    else Signed(AsSigned(0x8000_0000_0000_0000), true)
  }

  /** The sign, the reader chosen (0 decimal, 1 octal, 2 binary, 3 hexadecimal),
      and the position where it starts. */
  datatype Start = Start(negative: bool, reader: nat, s: nat)

  function At(text: seq<byte>, i: nat): byte {
    if i < |text| then text[i] else 0
  }

  function StartOf(text: seq<byte>, pos: nat): (st: Start)
    ensures st.reader < 4
  {
    var negative := At(text, pos) == MINUS;
    var q := pos + if negative || At(text, pos) == PLUS then 1 else 0;
    var zero := if At(text, q) == ZERO then 1 else 0;
    var c := At(text, q + zero);
    var reader := zero + (if IsLetter(c, LOWER_B) then 1 else 0) + (if IsLetter(c, LOWER_X) then 2 else 0);
    Start(negative, reader, q + zero + if reader > 1 then 1 else 0)
  }

  /** What the chosen reader may have read. */
  ghost predicate Reads(dividers: bool, text: seq<byte>, reader: nat, s: nat, u: nat, q: nat, err: bool)
    requires s < |text|
  {
    match reader
    case 0 => DecimalFit(dividers, text, s, u, q, err)
    case 1 => OctalFit(dividers, text, s, u, q, err)
    case 2 => GroupedFit(text, BinaryStart(text, s), Format(2, dividers), u, q, err)
    case _ => HexFit(text, s, u, q, err)
  }

  /** Decimal and negative numbers are limited to the signed range, the others
      are taken as 64 bits. Nothing is consumed if no digit is read, but for a
      sign and the zero that chooses the octal reader. */
  ghost predicate AtolFit(dividers: bool, text: seq<byte>, pos: nat, r: int, p: nat, e2big: bool) {
    var st := StartOf(text, pos);
    st.s < |text| && exists u: nat, q: nat, err: bool ::
      && u < BASE && Reads(dividers, text, st.reader, st.s, u, q, err)
      && p == (if q != st.s || st.reader == 1 then q else pos)
      && r == (if st.negative || st.reader == 0 then U2iLimit(u, st.negative).value else AsSigned(u))
      && e2big == (err || ((st.negative || st.reader == 0) && U2iLimit(u, st.negative).e2big))
  }

  lemma StartTerminated(text: seq<byte>, pos: nat)
    requires pos < |text| && Terminated(text, pos)
    ensures StartOf(text, pos).s < |text| && Terminated(text, StartOf(text, pos).s)
  {
    var q := pos;
    if text[pos] == MINUS || text[pos] == PLUS {
      StillTerminated(text, pos);
      q := pos + 1;
    }
    if text[q] == ZERO {
      StillTerminated(text, q);
      q := q + 1;
    }
    if IsLetter(text[q], LOWER_B) || IsLetter(text[q], LOWER_X) {
      StillTerminated(text, q);
    }
  }

  /** The call through the table of readers. */
  method ReadUnsigned(dividers: bool, text: seq<byte>, reader: nat, s: nat) returns (u: nat, q: nat, err: bool)
    requires s < |text| && Terminated(text, s) && reader < 4
    ensures u < BASE && Reads(dividers, text, reader, s, u, q, err)
  {
    if reader == 0 {
      u, q, err := Atol10u(dividers, text, s);
    } else if reader == 1 {
      u, q, err := Atol8u(dividers, text, s);
    } else if reader == 2 {
      u, q, err := AtolBin(dividers, text, s);
    } else {
      u, q, err := Atol16u(text, s);
    }
  }

  /** fio_atol. The flag dividers is FIO_ATOL_ALLOW_UNDERSCORE_DIVIDER. */
  method Atol(dividers: bool, text: seq<byte>, pos: nat) returns (r: int, p: nat, e2big: bool)
    requires pos < |text| && Terminated(text, pos)
    ensures INT_MIN <= r <= INT_MAX && AtolFit(dividers, text, pos, r, p, e2big)
  {
    hide StartOf, Terminated, Reads, U2iLimit, AsSigned;
    StartTerminated(text, pos);
    var st := StartOf(text, pos);
    var u, q, err := ReadUnsigned(dividers, text, st.reader, st.s);
    p := if q != st.s || st.reader == 1 then q else pos;
    if st.negative || st.reader == 0 {
      var limited := U2iLimit(u, st.negative);
      r, e2big := limited.value, err || limited.e2big;
    } else {
      r, e2big := AsSigned(u), err;
    }
  }
}
