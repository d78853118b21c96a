/** The readers that accept dividers, fio_atol8u, fio_atol10u and fio_atol_bin; the
    last two have word-parallel fast paths. The flag dividers is
    FIO_ATOL_ALLOW_UNDERSCORE_DIVIDER. */
module GroupedReaders {
  import opened Bytes
  import opened Words
  import opened Modular
  import opened Bitwise
  import opened Numerals
  import opened Swar
  import opened SwarBits
  import opened Parsers
  import opened Dividers

  // ---- Octal ----

  /** A prefix of the numeral from i, up to its end or until no further digit has
      room. A divider after the last digit that has room is not skipped. */
  ghost predicate OctalFit(dividers: bool, text: seq<byte>, i: nat, r: nat, p: nat, e2big: bool)
    requires i <= |text|
  {
    var f := Format(8, dividers);
    && i <= p <= GroupedEnd(text, i, f)
    && r == GroupedNumber(text, i, p, 8) < BASE
    && (p < GroupedEnd(text, i, f) ==> 8 * r >= BASE)
    && (8 * r >= BASE ==> i < p && IsDigit(text[p - 1], 8))
    && (e2big <==> p < |text| && IsDigit(text[p], 8))
  }

  /** A divider stands where no further digit has room. */
  ghost predicate FullAtDivider(text: seq<byte>, i: nat, f: Format)
    requires i <= |text|
  {
    exists k :: i <= k < GroupedEnd(text, i, f) && FullDividerAt(text, i, k, f)
  }

  ghost predicate FullDividerAt(text: seq<byte>, i: nat, k: nat, f: Format)
    requires i <= k <= |text|
  {
    SkippedAt(text, i, k, f) && GroupedNumber(text, i, k, f.base) < BASE <= GroupedNumber(text, i, k, f.base) * f.base
  }

  /** The overflow is reported exactly if the whole numeral does not fit and no
      divider stands at the cut; otherwise the number is that of the numeral. */
  lemma OctalOverflowIsExact(dividers: bool, text: seq<byte>, i: nat, r: nat, p: nat, e2big: bool)
    requires i <= |text| && OctalFit(dividers, text, i, r, p, e2big)
    ensures var f := Format(8, dividers); var e := GroupedEnd(text, i, f);
      && (e2big <==> GroupedNumber(text, i, e, 8) >= BASE && !FullAtDivider(text, i, f))
      && (p == e <==> !e2big && !FullAtDivider(text, i, f))
  {
    var f := Format(8, dividers);
    var e := GroupedEnd(text, i, f);
    hide GroupedNumber, GroupedEnd, SkippedAt;
    GroupedGoesOn(text, i, p, f);
    if p < e {
      if IsDigit(text[p], 8) {
        GroupedScales(text, i, p, e, 8);
      } else {
        assert FullDividerAt(text, i, p, f);
      }
    }
    forall k | i <= k < e && FullDividerAt(text, i, k, f)
      ensures k == p
    {
      FullOnce(text, i, k, p, f);
    }
  }

  /** Between two places where no digit has room there is no digit. */
  lemma FullOnce(text: seq<byte>, i: nat, k: nat, p: nat, f: Format)
    requires i <= k < |text| && i <= p <= |text| && f.base == 8 && FullDividerAt(text, i, k, f)
    requires p <= GroupedEnd(text, i, f) && k < GroupedEnd(text, i, f)
    requires var r := GroupedNumber(text, i, p, 8);
      && r < BASE && (p < GroupedEnd(text, i, f) ==> 8 * r >= BASE)
      && (8 * r >= BASE ==> i < p && IsDigit(text[p - 1], 8))
    ensures k == p
  {
    hide GroupedNumber, GroupedEnd;
    if k < p {
      GroupedGrows(text, i, k, p, 8);
      GroupedScales(text, i, k, p, 8);
    } else if p < k {
      BeforeSkipped(text, i, k, f);
      GroupedScales(text, i, p, k, 8);
    }
  }

  lemma BeforeSkipped(text: seq<byte>, i: nat, k: nat, f: Format)
    requires i <= k <= |text| && f.base <= 36 && SkippedAt(text, i, k, f)
    ensures i < k && IsDigit(text[k - 1], f.base) && !IsDigit(text[k], f.base)
  {
  }

  lemma OctalRoom(r: nat, d: nat)
    requires r < BASE && d < 8
    ensures And(r, 0xE000_0000_0000_0000) != 0 <==> 8 * r + d >= BASE
    ensures 8 * r + d < BASE ==> Or(8 * r % BASE, d) == 8 * r + d
  {
    HexMasks();
    TopBitsMeans(r, 3);
    WordPower();
    if 8 * r + d < BASE {
      ShiftIn(r, d, 3);
    }
  }

  /** r <<= 3; r |= d. */
  function WithDigit(r: nat, d: nat): nat {
    Or(8 * r % BASE, d)
  }

  lemma OctalStep(r: nat, d: nat)
    requires 8 * r < BASE && d < 8
    ensures WithDigit(r, d) == 8 * r + d < BASE
    ensures And(8 * r + d, 0xE000_0000_0000_0000) != 0 <==> 8 * (8 * r + d) >= BASE
  {
    hide And, Or;
    OctalRoom(r, d);
    OctalRoom(r, 0);
    OctalRoom(8 * r + d, 0);
  }

  /** Before a digit is read, no divider at p would be skipped. */
  ghost predicate AtGroup(text: seq<byte>, i: nat, p: nat, f: Format)
    requires i <= |text|
  {
    && i <= p <= GroupedEnd(text, i, f) < |text|
    && (p < GroupedEnd(text, i, f) <==> IsDigit(text[p], f.base))
  }

  lemma AtStart(text: seq<byte>, i: nat, f: Format)
    requires i < |text| && Terminated(text, i) && f.base <= 36
    ensures AtGroup(text, i, i, f) && GroupedNumber(text, i, i, f.base) == 0
  {
    GroupedStops(text, i, f);
    GroupedGoesOn(text, i, i, f);
  }

  /** After a digit the numeral goes on with a digit or a divider. */
  lemma OctalNext(dividers: bool, text: seq<byte>, i: nat, p: nat)
    requires i <= p < |text| && AtGroup(text, i, p, Format(8, dividers)) && IsDigit(text[p], 8)
    ensures var f := Format(8, dividers);
      && p + 1 <= GroupedEnd(text, i, f) < |text|
      && GroupedNumber(text, i, p + 1, 8) == GroupedNumber(text, i, p, 8) * 8 + DigitOf(text[p], 8)
      && if dividers && text[p + 1] == UNDERSCORE then AtGroup(text, i, p + 2, f)
           && GroupedNumber(text, i, p + 2, 8) == GroupedNumber(text, i, p + 1, 8)
         else AtGroup(text, i, p + 1, f)
  {
    var f := Format(8, dividers);
    hide GroupedNumber, GroupedEnd, EndFrom;
    AfterDigit(text, i, p, 8);
    GroupedGoesOn(text, i, p + 1, f);
    if dividers && text[p + 1] == UNDERSCORE {
      AfterDivider(text, i, p + 1, 8);
      GroupedGoesOn(text, i, p + 2, f);
    }
  }

  /** The two ways out of the loop. */
  lemma OctalEnds(dividers: bool, text: seq<byte>, i: nat, p: nat, r: nat)
    requires i <= |text| && AtGroup(text, i, p, Format(8, dividers)) && !IsDigit(text[p], 8)
    requires r == GroupedNumber(text, i, p, 8) && 8 * r < BASE
    ensures OctalFit(dividers, text, i, r, p, false)
  {
  }

  lemma OctalFull(dividers: bool, text: seq<byte>, i: nat, p: nat, r: nat)
    requires i <= p < |text| && AtGroup(text, i, p, Format(8, dividers)) && IsDigit(text[p], 8)
    requires r == GroupedNumber(text, i, p + 1, 8) && r < BASE <= 8 * r
    ensures p + 1 < |text| && OctalFit(dividers, text, i, r, p + 1, IsDigit(text[p + 1], 8))
  {
    hide GroupedNumber, GroupedEnd;
    OctalNext(dividers, text, i, p);
  }

  lemma GroupInside(text: seq<byte>, i: nat, p: nat, f: Format)
    requires i <= |text| && AtGroup(text, i, p, f)
    ensures i <= p < |text|
  {
  }

  /** Between two digits of the loop, with room for another one. */
  ghost predicate OctalInv(dividers: bool, text: seq<byte>, i: nat, r: nat, p: nat)
    requires i <= |text|
  {
    AtGroup(text, i, p, Format(8, dividers)) && r == GroupedNumber(text, i, p, 8) && 8 * r < BASE
  }

  /** One digit, and the divider after it if there is room for more. */
  method OctalDigit(dividers: bool, text: seq<byte>, ghost i: nat, r: nat, p: nat)
    returns (r': nat, p': nat, full: bool)
    requires i <= p < |text| && OctalInv(dividers, text, i, r, p) && IsDigit(text[p], 8)
    ensures i <= p < p' < |text|
    ensures full ==> OctalFit(dividers, text, i, r', p', IsDigit(text[p'], 8))
    ensures !full ==> OctalInv(dividers, text, i, r', p')
  {
    hide And, Or, GroupedEnd, GroupedNumber, OctalFit, AtGroup, DigitOf, WithDigit;
    var d := DigitOf(text[p], 8);
    OctalNext(dividers, text, i, p);
    OctalStep(r, d);
    r' := WithDigit(r, d);
    p' := p + 1;
    full := And(r', 0xE000_0000_0000_0000) != 0;
    if full {
      OctalFull(dividers, text, i, p, r');
      return;
    }
    p' := p' + if dividers && text[p'] == UNDERSCORE then 1 else 0;
    GroupInside(text, i, p', Format(8, dividers));
  }

  /** The loop of fio_atol8u. */
  method OctalScan(dividers: bool, text: seq<byte>, pos: nat) returns (r: nat, p: nat)
    requires pos < |text| && Terminated(text, pos)
    ensures p < |text| && OctalFit(dividers, text, pos, r, p, IsDigit(text[p], 8))
  {
    AtStart(text, pos, Format(8, dividers));
    hide Terminated, DigitOf, GroupedEnd, GroupedNumber, AtGroup, OctalFit;
    r, p := 0, pos;
    while DigitOf(text[p], 8) < 8
      invariant pos <= p < |text| && OctalInv(dividers, text, pos, r, p)
      decreases |text| - p
    {
      var full: bool;
      r, p, full := OctalDigit(dividers, text, pos, r, p);
      if full {
        return;
      }
    }
    OctalEnds(dividers, text, pos, p, r);
  }

  /** fio_atol8u. */
  method Atol8u(dividers: bool, text: seq<byte>, pos: nat) returns (r: nat, p: nat, e2big: bool)
    requires pos < |text| && Terminated(text, pos)
    ensures OctalFit(dividers, text, pos, r, p, e2big)
  {
    r, p := OctalScan(dividers, text, pos);
    e2big := DigitOf(text[p], 8) < 8;
  }

  // ---- Decimal ----

  /** Without overflow, the whole numeral from i. Otherwise a prefix, one digit
      shorter than the longest that fits if that one leaves no room for a further
      digit; the digit it lacks is consumed if a divider follows it. */
  ghost predicate DecimalFit(dividers: bool, text: seq<byte>, i: nat, r: nat, p: nat, e2big: bool)
    requires i <= |text|
  {
    var f := Format(10, dividers);
    var e := GroupedEnd(text, i, f);
    && i <= p <= e && r < BASE
    && (e2big <==> p < e)
    && (!e2big ==> r == GroupedNumber(text, i, p, 10))
    && (e2big ==> r <= MAX / 10 && CutAt(text, i, r, p, e))
  }

  ghost predicate CutAt(text: seq<byte>, i: nat, r: nat, p: nat, e: nat)
    requires i <= p < e <= |text|
  {
    var n := GroupedNumber(text, i, p, 10);
    if IsDigit(text[p], 10) then
      var n1 := GroupedNumber(text, i, p + 1, 10);
      r == n && (n1 >= BASE || (n1 > MAX / 10 && DigitAt(text, p + 1, e)))
    else r == n / 10 && n > MAX / 10 && DigitAt(text, p + 1, e)
  }

  predicate DigitAt(text: seq<byte>, p: nat, e: nat)
    requires e <= |text|
  {
    p < e && IsDigit(text[p], 10)
  }

  /** The overflow is reported exactly if the whole numeral does not fit. */
  lemma DecimalOverflowIsExact(dividers: bool, text: seq<byte>, i: nat, r: nat, p: nat, e2big: bool)
    requires i <= |text| && DecimalFit(dividers, text, i, r, p, e2big)
    ensures e2big <==> GroupedNumber(text, i, GroupedEnd(text, i, Format(10, dividers)), 10) >= BASE
  {
    hide GroupedNumber, GroupedEnd, IsDigit;
    var e := GroupedEnd(text, i, Format(10, dividers));
    if e2big {
      if IsDigit(text[p], 10) && GroupedNumber(text, i, p + 1, 10) >= BASE {
        GroupedGrows(text, i, p + 1, e, 10);
      } else {
        DigitMore(text, i, p, e);
      }
    }
  }

  /** No digit has room after a number above a tenth of the range. */
  lemma DigitMore(text: seq<byte>, i: nat, p: nat, e: nat)
    requires i <= p && p + 1 < e <= |text| && IsDigit(text[p + 1], 10)
    requires GroupedNumber(text, i, p, 10) > MAX / 10 || GroupedNumber(text, i, p + 1, 10) > MAX / 10
    ensures GroupedNumber(text, i, e, 10) >= BASE
  {
    GroupedGrows(text, i, p, p + 1, 10);
    GroupedScales(text, i, p + 1, e, 10);
  }

  /** Counts up to eight leading digits. */
  method LeadingDigits(text: seq<byte>, pos: nat) returns (n: nat)
    requires pos < |text| && Terminated(text, pos)
    ensures n <= 8 && pos + n <= RunEnd(text, pos, 10) < |text|
    ensures n < 8 ==> pos + n == RunEnd(text, pos, 10)
  {
    RunStops(text, pos, 10);
    n := 0;
    for i := 0 to 8
      invariant n <= i && pos + n <= RunEnd(text, pos, 10)
      invariant n < i ==> pos + n == RunEnd(text, pos, 10)
    {
      RunGoesOn(text, pos, pos + n, 10);
      n := n + if 48 <= text[pos + n] <= 57 then 1 else 0;
    }
  }

  lemma FourBound(text: seq<byte>, j: nat)
    requires j + 4 <= |text| && forall k :: j <= k < j + 4 ==> IsDigit(text[k], 10)
    ensures FourAt(text, j) < 10000
  {
    DigitByte(text[j]); DigitByte(text[j + 1]); DigitByte(text[j + 2]); DigitByte(text[j + 3]);
  }

  /** Eight or four digits at once, or none. */
  method FastStart(text: seq<byte>, pos: nat) returns (r: nat, p: nat)
    requires pos < |text| && Terminated(text, pos)
    ensures pos <= p <= RunEnd(text, pos, 10) < |text|
    ensures r == Number(text, pos, p, 10) < 1_0000_0000
    ensures p == pos + FastDigits(RunEnd(text, pos, 10) - pos)
  {
    var n := LeadingDigits(text, pos);
    r, p := 0, pos;
    if n >= 8 {
      EightDigitsCorrect(text, pos);
      NumberOfEight(text, pos);
      FourBound(text, pos);
      FourBound(text, pos + 4);
      r := EightDigits(Load64Le(text, pos));
      p := pos + 8;
    } else if n >= 4 {
      assert Number(text, pos, pos, 10) == 0;
      NumberOfFour(text, pos, pos);
      FourBound(text, pos);
      DigitByte(text[pos]); DigitByte(text[pos + 1]); DigitByte(text[pos + 2]); DigitByte(text[pos + 3]);
      r := (text[pos] as int - 48) * 1000 + (text[pos + 1] as int - 48) * 100
         + (text[pos + 2] as int - 48) * 10 + (text[pos + 3] as int - 48);
      p := pos + 4;
    }
  }

  /** How many of n leading digits the fast path takes. */
  function FastDigits(n: nat): (k: nat)
    ensures k <= n
  {
    if n >= 8 then 8 else if n >= 4 then 4 else 0
  }

  /** Before a digit of the slow loop: either the fast path ends here, or the
      first group is not one that it takes whole. */
  ghost predicate AtDecimal(dividers: bool, text: seq<byte>, i: nat, p: nat)
    requires i <= |text|
  {
    && AtGroup(text, i, p, Format(10, dividers))
    && i + FastDigits(RunEnd(text, i, 10) - i) <= p
  }

  /** After the fast path. */
  lemma FastEnds(dividers: bool, text: seq<byte>, i: nat, p: nat)
    requires i < |text| && Terminated(text, i) && p == i + FastDigits(RunEnd(text, i, 10) - i)
    ensures p <= |text| && AtDecimal(dividers, text, i, p)
    ensures GroupedNumber(text, i, p, 10) == Number(text, i, p, 10)
  {
    var f := Format(10, dividers);
    OneGroup(text, i, p, 10);
    GroupedStops(text, i, f);
    hide Terminated, GroupedNumber, Number;
    ReachedByDigits(text, i, p, f);
    GroupedGoesOn(text, i, p, f);
  }

  lemma ReachedByDigits(text: seq<byte>, i: nat, p: nat, f: Format)
    requires i <= p <= |text| && forall k :: i <= k < p ==> IsDigit(text[k], f.base)
    ensures p <= GroupedEnd(text, i, f)
  {
    assert !GoesOnAt(text, i, GroupedEnd(text, i, f), f);
  }

  /** After a digit of the slow loop, and after the divider if there is one. */
  lemma DecimalNext(dividers: bool, text: seq<byte>, i: nat, p: nat)
    requires i <= p < |text| && AtDecimal(dividers, text, i, p) && IsDigit(text[p], 10)
    ensures var f := Format(10, dividers);
      && p + 1 <= GroupedEnd(text, i, f) < |text|
      && GroupedNumber(text, i, p + 1, 10) == GroupedNumber(text, i, p, 10) * 10 + DigitOf(text[p], 10)
      && if dividers && text[p + 1] == UNDERSCORE then AtDecimal(dividers, text, i, p + 2)
           && GroupedNumber(text, i, p + 2, 10) == GroupedNumber(text, i, p + 1, 10)
         else AtDecimal(dividers, text, i, p + 1)
  {
    var f := Format(10, dividers);
    hide GroupedNumber, GroupedEnd, EndFrom, RunEnd, Number;
    AfterDigit(text, i, p, 10);
    GroupedGoesOn(text, i, p + 1, f);
    if dividers && text[p + 1] == UNDERSCORE {
      if GroupLength(text, i, p + 1, 10) == p + 1 - i {
        FirstGroup(text, i, p + 1);
      }
      AfterDivider(text, i, p + 1, 10);
      GroupedGoesOn(text, i, p + 2, f);
    }
  }

  /** The first group is the digit run. */
  lemma FirstGroup(text: seq<byte>, i: nat, p: nat)
    requires i <= p < |text| && GroupLength(text, i, p, 10) == p - i && !IsDigit(text[p], 10)
    ensures RunEnd(text, i, 10) == p
  {
    OneGroup(text, i, p, 10);
    RunEndsAt(text, i, p, 10);
  }

  /** fio_atol10u. */
  method Atol10u(dividers: bool, text: seq<byte>, pos: nat) returns (r: nat, p: nat, e2big: bool)
    requires pos < |text| && Terminated(text, pos)
    ensures DecimalFit(dividers, text, pos, r, p, e2big)
  {
    hide Number, GroupedNumber, GroupedEnd, RunEnd;
    e2big := false;
    r, p := FastStart(text, pos);
    FastEnds(dividers, text, pos, p);
    if !(48 <= text[p] <= 57) {
      return;
    }
    var u1: nat := r;
    r := r * 10;
    while true
      invariant p < |text| && AtDecimal(dividers, text, pos, p) && IsDigit(text[p], 10)
      invariant u1 == GroupedNumber(text, pos, p, 10) <= MAX / 10 && r == 10 * u1
      decreases |text| - p
    {
      var u0 := text[p] as int - 48;
      DecimalNext(dividers, text, pos, p);
      r := (r + u0) % BASE;
      if r < u1 {
        Wrapped(u1, u0);
        return u1, p, true;
      }
      NotWrapped(u1, u0);
      p := p + 1;
      p := p + if dividers && text[p] == UNDERSCORE then 1 else 0;
      if !(48 <= text[p] <= 57) {
        return;
      }
      if r > MAX / 10 {
        return u1, p - 1, true;
      }
      u1 := r;
      r := r * 10 % BASE;
    }
  }

  lemma Wrapped(u: nat, d: nat)
    requires u <= MAX / 10 && d < 10 && (10 * u + d) % BASE < u
    ensures 10 * u + d >= BASE
  {
    if 10 * u + d < BASE {
      DivModUnique(10 * u + d, 0, 10 * u + d, BASE);
    }
  }

  lemma NotWrapped(u: nat, d: nat)
    requires u <= MAX / 10 && d < 10 && (10 * u + d) % BASE >= u
    ensures (10 * u + d) % BASE == 10 * u + d
  {
    if 10 * u + d >= BASE {
      DivModUnique(10 * u + d, 1, 10 * u + d - BASE, BASE);
    } else {
      DivModUnique(10 * u + d, 0, 10 * u + d, BASE);
    }
  }

  // ---- Binary ----

  function Load64Be(text: seq<byte>, p: nat): nat
    requires p + 8 <= |text|
  {
    Lanes8(text[p + 7], text[p + 6], text[p + 5], text[p + 4], text[p + 3], text[p + 2], text[p + 1], text[p], 0x100)
  }

  function Load32Be(text: seq<byte>, p: nat): nat
    requires p + 4 <= |text|
  {
    Lanes4(text[p + 3], text[p + 2], text[p + 1], text[p], 0x100)
  }

  lemma BitByte(c: byte)
    ensures IsDigit(c, 2) <==> 48 <= c < 50
    ensures IsDigit(c, 2) ==> c == 48 + DigitOf(c, 2)
  {
  }

  lemma EightBits(text: seq<byte>, i: nat, p: nat)
    requires i <= p && p + 8 <= |text| && forall k :: p <= k < p + 8 ==> IsDigit(text[k], 2)
    ensures GroupedNumber(text, i, p + 8, 2) == 0x100 * GroupedNumber(text, i, p, 2)
      + Bits8(DigitOf(text[p + 7], 2), DigitOf(text[p + 6], 2), DigitOf(text[p + 5], 2), DigitOf(text[p + 4], 2),
              DigitOf(text[p + 3], 2), DigitOf(text[p + 2], 2), DigitOf(text[p + 1], 2), DigitOf(text[p], 2))
  {
    hide GroupedNumber, GroupLength, DigitOf, IsDigit;
    AfterDigit(text, i, p, 2); AfterDigit(text, i, p + 1, 2);
    AfterDigit(text, i, p + 2, 2); AfterDigit(text, i, p + 3, 2);
    AfterDigit(text, i, p + 4, 2); AfterDigit(text, i, p + 5, 2);
    AfterDigit(text, i, p + 6, 2); AfterDigit(text, i, p + 7, 2);
  }

  lemma FourBits(text: seq<byte>, i: nat, p: nat)
    requires i <= p && p + 4 <= |text| && forall k :: p <= k < p + 4 ==> IsDigit(text[k], 2)
    ensures GroupedNumber(text, i, p + 4, 2)
         == 0x10 * GroupedNumber(text, i, p, 2)
            + Four(DigitOf(text[p + 3], 2), DigitOf(text[p + 2], 2), DigitOf(text[p + 1], 2), DigitOf(text[p], 2))
  {
    hide GroupedNumber, GroupLength, DigitOf, IsDigit;
    AfterDigit(text, i, p, 2); AfterDigit(text, i, p + 1, 2);
    AfterDigit(text, i, p + 2, 2); AfterDigit(text, i, p + 3, 2);
  }

  lemma BitSums(a: nat, b: nat, c: nat, d: nat, e: nat, f: nat, g: nat, h: nat)
    requires a < 2 && b < 2 && c < 2 && d < 2 && e < 2 && f < 2 && g < 2 && h < 2
    ensures Bits8(a, b, c, d, e, f, g, h) < 0x100 && Four(a, b, c, d) < 0x10
    ensures Lanes4(48 + a, 48 + b, 48 + c, 48 + d, 0x100) == Lanes4(a, b, c, d, 0x100) + 0x30303030
  {
  }

  /** Eight digit bytes gathered to the number they write, */
  lemma GatherEight(text: seq<byte>, i: nat, p: nat)
    requires i <= p && p + 8 <= |text| && forall k :: p <= k < p + 8 ==> IsDigit(text[k], 2)
    ensures Load64Be(text, p) >= 0x3030303030303030
    ensures Gather8(Load64Be(text, p) - 0x3030303030303030) < 0x100
    ensures GroupedNumber(text, i, p + 8, 2)
         == 0x100 * GroupedNumber(text, i, p, 2) + Gather8(Load64Be(text, p) - 0x3030303030303030)
  {
    hide GroupedNumber, DigitOf, Lanes8, Gather8, IsDigit, Bits8;
    BitByte(text[p]); BitByte(text[p + 1]); BitByte(text[p + 2]); BitByte(text[p + 3]);
    BitByte(text[p + 4]); BitByte(text[p + 5]); BitByte(text[p + 6]); BitByte(text[p + 7]);
    EightBits(text, i, p);
    var a, b := DigitOf(text[p + 7], 2), DigitOf(text[p + 6], 2);
    var c, d := DigitOf(text[p + 5], 2), DigitOf(text[p + 4], 2);
    var e, f, g, h := DigitOf(text[p + 3], 2), DigitOf(text[p + 2], 2), DigitOf(text[p + 1], 2), DigitOf(text[p], 2);
    AddZeros(a, b, c, d, e, f, g, h);
    BitSums(a, b, c, d, e, f, g, h);
    Gather8Of(a, b, c, d, e, f, g, h);
  }

  /** and four of them. */
  lemma GatherFour(text: seq<byte>, i: nat, p: nat)
    requires i <= p && p + 4 <= |text| && forall k :: p <= k < p + 4 ==> IsDigit(text[k], 2)
    ensures Load32Be(text, p) >= 0x30303030
    ensures Gather4(Load32Be(text, p) - 0x30303030) < 0x10
    ensures GroupedNumber(text, i, p + 4, 2)
         == 0x10 * GroupedNumber(text, i, p, 2) + Gather4(Load32Be(text, p) - 0x30303030)
  {
    hide GroupedNumber, DigitOf, Lanes4, Gather4, IsDigit, Four;
    BitByte(text[p]); BitByte(text[p + 1]); BitByte(text[p + 2]); BitByte(text[p + 3]);
    FourBits(text, i, p);
    var a, b, c, d := DigitOf(text[p + 3], 2), DigitOf(text[p + 2], 2), DigitOf(text[p + 1], 2), DigitOf(text[p], 2);
    BitSums(a, b, c, d, 0, 0, 0, 0);
    Gather4Of(a, b, c, d);
  }

  /** Room for one, four and eight more binary digits. */
  lemma BitRoom(r: nat, d: nat)
    requires r < BASE && d < 2
    ensures And(r, 0x8000_0000_0000_0000) != 0 <==> r >= BASE / 2
    ensures r < BASE / 2 ==> Or(2 * r % BASE, d) == 2 * r + d < BASE
  {
    HexMasks();
    WordPower();
    hide And, Or, Pow2;
    TopBitsMeans(r, 1);
    if r < BASE / 2 { ShiftIn(r, d, 1); }
  }

  lemma NibbleRoom(r: nat, d: nat)
    requires r < BASE && d < 0x10
    ensures And(r, 0xF000_0000_0000_0000) != 0 <==> r >= BASE / 0x10
    ensures r < BASE / 0x10 ==> Or(0x10 * r % BASE, d) == 0x10 * r + d < BASE
  {
    HexMasks();
    WordPower();
    hide And, Or, Pow2;
    TopBitsMeans(r, 4);
    if r < BASE / 0x10 { ShiftIn(r, d, 4); }
  }

  lemma ByteRoom(r: nat, d: nat)
    requires r < BASE && d < 0x100
    ensures And(r, 0xFF00_0000_0000_0000) != 0 <==> r >= BASE / 0x100
    ensures r < BASE / 0x100 ==> Or(0x100 * r % BASE, d) == 0x100 * r + d < BASE
  {
    HexMasks();
    WordPower();
    Powers();
    hide And, Or, Pow2;
    TopBitsMeans(r, 8);
    if r < BASE / 0x100 { ShiftIn(r, d, 8); }
  }

  /** Counts up to eight binary digits. */
  method LeadingBits(text: seq<byte>, p: nat) returns (n: nat)
    requires p <= |text| && RunEnd(text, p, 2) < |text|
    ensures n <= 8 && p + n <= RunEnd(text, p, 2)
    ensures n < 8 ==> p + n == RunEnd(text, p, 2)
  {
    n := 0;
    for i := 0 to 8
      invariant n <= i && p + n <= RunEnd(text, p, 2)
      invariant n < i ==> p + n == RunEnd(text, p, 2)
    {
      RunGoesOn(text, p, p + n, 2);
      n := n + if 48 <= text[p + n] < 50 then 1 else 0;
    }
  }

  /** One digit at a time, until the digits end or the top bit is set. */
  method SlowBits(text: seq<byte>, ghost s: nat, r0: nat, p0: nat) returns (r: nat, p: nat)
    requires s <= p0 <= |text| && RunEnd(text, p0, 2) < |text|
    requires r0 == GroupedNumber(text, s, p0, 2) < BASE / 2
    ensures p0 <= p <= RunEnd(text, p0, 2) && r == GroupedNumber(text, s, p, 2) < BASE
    ensures p < RunEnd(text, p0, 2) ==> r >= BASE / 2
  {
    hide And, Or, GroupedNumber, GroupLength, RunEnd;
    r, p := r0, p0;
    RunGoesOn(text, p0, p, 2);
    while 48 <= text[p] < 50
      invariant p0 <= p <= RunEnd(text, p0, 2)
      invariant r == GroupedNumber(text, s, p, 2) < BASE / 2
      decreases |text| - p
    {
      var d := text[p] as int - 48;
      RunGoesOn(text, p0, p, 2);
      AfterDigit(text, s, p, 2);
      BitRoom(r, d);
      r := Or(2 * r % BASE, d);
      BitRoom(r, 0);
      p := p + 1;
      if And(r, 0x8000_0000_0000_0000) != 0 {
        return;
      }
    }
    RunGoesOn(text, p0, p, 2);
  }

  /** Where fio_atol_bin starts reading: after a zero, and after a b that a
      binary digit follows. */
  function BinaryStart(text: seq<byte>, pos: nat): (s: nat)
    requires pos < |text|
    ensures pos <= s <= |text|
  {
    var q := if text[pos] == ZERO then pos + 1 else pos;
    if q + 1 < |text| && IsLetter(text[q], LOWER_B) && 48 <= text[q + 1] < 50 then q + 1 else q
  }

  lemma BinaryStartBytes(text: seq<byte>, pos: nat)
    requires pos < |text|
    ensures var q := if text[pos] == 48 then pos + 1 else pos;
      BinaryStart(text, pos) ==
        if q + 1 < |text| && text[q] in [66, 98] && text[q + 1] in [48, 49] then q + 1 else q
  {
  }

  /** fio_atol_bin. */
  method AtolBin(dividers: bool, text: seq<byte>, pos: nat) returns (r: nat, p: nat, e2big: bool)
    requires pos < |text| && Terminated(text, pos)
    ensures GroupedFit(text, BinaryStart(text, pos), Format(2, dividers), r, p, e2big)
  {
    hide Terminated, GroupedFit, DigitOf;
    p := pos;
    if text[p] == ZERO {
      StillTerminated(text, p);
      p := p + 1;
    }
    if IsLetter(text[p], LOWER_B) {
      StillTerminated(text, p);
      if 48 <= text[p + 1] < 50 {
        p := p + 1;
      }
    }
    ghost var s := p;
    r, p := ReadBits(dividers, text, p);
    BitByte(text[p]);
    e2big := 48 <= text[p] < 50;
  }

  /** Eight digits, or four, taken in one step. */
  method TakeEight(text: seq<byte>, ghost s: nat, r0: nat, p: nat) returns (r: nat)
    requires s <= p && p + 8 <= |text| && forall k :: p <= k < p + 8 ==> IsDigit(text[k], 2)
    requires r0 == GroupedNumber(text, s, p, 2) < BASE / 0x100
    ensures r == GroupedNumber(text, s, p + 8, 2) < BASE
  {
    hide Or, GroupedNumber, Gather8, Load64Be, And, IsDigit;
    GatherEight(text, s, p);
    var g := Gather8(Load64Be(text, p) - 0x3030303030303030);
    ByteRoom(r0, g);
    r := Or(0x100 * r0 % BASE, g);
  }

  method TakeFour(text: seq<byte>, ghost s: nat, r0: nat, p: nat) returns (r: nat)
    requires s <= p && p + 4 <= |text| && forall k :: p <= k < p + 4 ==> IsDigit(text[k], 2)
    requires r0 == GroupedNumber(text, s, p, 2) < BASE / 0x10
    ensures r == GroupedNumber(text, s, p + 4, 2) < BASE
  {
    hide Or, GroupedNumber, Gather4, Load32Be, And, IsDigit;
    GatherFour(text, s, p);
    var g := Gather4(Load32Be(text, p) - 0x30303030);
    NibbleRoom(r0, g);
    r := Or(0x10 * r0 % BASE, g);
  }

  /** Between two steps the digits of the group so far are a multiple of four. */
  ghost predicate AtBits(dividers: bool, text: seq<byte>, s: nat, p: nat)
    requires s <= |text|
  {
    s <= p <= GroupedEnd(text, s, Format(2, dividers)) < |text| && GroupLength(text, s, p, 2) % 4 == 0
  }

  lemma BitsStart(dividers: bool, text: seq<byte>, s: nat)
    requires s < |text| && Terminated(text, s)
    ensures AtBits(dividers, text, s, s) && GroupedNumber(text, s, s, 2) == 0
  {
    GroupedStops(text, s, Format(2, dividers));
  }

  lemma RunInBits(dividers: bool, text: seq<byte>, s: nat, p: nat)
    requires s <= |text| && AtBits(dividers, text, s, p)
    ensures p <= RunEnd(text, p, 2) <= GroupedEnd(text, s, Format(2, dividers)) < |text|
  {
    RunInside(text, s, p, Format(2, dividers));
  }

  /** A step of four or eight digits. */
  lemma BitsTaken(dividers: bool, text: seq<byte>, s: nat, p: nat, n: nat)
    requires s <= |text| && AtBits(dividers, text, s, p) && p + n <= RunEnd(text, p, 2) && n % 4 == 0
    ensures AtBits(dividers, text, s, p + n)
  {
    RunInBits(dividers, text, s, p);
    GroupGrows(text, s, p, p + n, 2);
  }

  /** Where the loop ends. */
  lemma BitsStop(dividers: bool, text: seq<byte>, s: nat, p: nat, r: nat)
    requires s <= |text| && s <= p <= GroupedEnd(text, s, Format(2, dividers)) < |text|
    requires !SkippedAt(text, s, p, Format(2, dividers)) && r == GroupedNumber(text, s, p, 2) < BASE
    requires IsDigit(text[p], 2) ==> r >= BASE / 2
    ensures GroupedFit(text, s, Format(2, dividers), r, p, IsDigit(text[p], 2))
  {
    hide GroupedNumber, GroupedEnd, GroupLength;
    var f := Format(2, dividers);
    GroupedGoesOn(text, s, p, f);
    if IsDigit(text[p], 2) {
      AfterDigit(text, s, p, 2);
    }
  }

  lemma EightMore(text: seq<byte>, i: nat, p: nat)
    requires i <= p && p + 8 <= |text| && forall k :: p <= k < p + 8 ==> IsDigit(text[k], 2)
    ensures GroupedNumber(text, i, p + 8, 2) >= 0x100 * GroupedNumber(text, i, p, 2)
  {
    hide GroupedNumber, Bits8, DigitOf, IsDigit;
    EightBits(text, i, p);
  }

  lemma FourMore(text: seq<byte>, i: nat, p: nat)
    requires i <= p && p + 4 <= |text| && forall k :: p <= k < p + 4 ==> IsDigit(text[k], 2)
    ensures GroupedNumber(text, i, p + 4, 2) >= 0x10 * GroupedNumber(text, i, p, 2)
  {
    hide GroupedNumber, Four, DigitOf, IsDigit;
    FourBits(text, i, p);
  }

  /** A step that is not taken would not have fitted. */
  lemma NoStepFits(text: seq<byte>, i: nat, p: nat, q: nat, n: nat)
    requires i <= p && (n == 4 || n == 8) && p + n <= q <= |text| && q == RunEnd(text, p, 2)
    requires GroupedNumber(text, i, p, 2) >= if n == 8 then BASE / 0x100 else BASE / 0x10
    ensures GroupedNumber(text, i, q, 2) >= BASE
  {
    hide GroupedNumber, DigitOf, IsDigit;
    GroupedGrows(text, i, p + n, q, 2);
    if n == 8 {
      EightMore(text, i, p);
    } else {
      FourMore(text, i, p);
    }
  }

  /** A group of digits that is read one by one to its end, and fits, has no
      multiple of four digits; so a divider after it is skipped. */
  lemma BitsDivider(dividers: bool, text: seq<byte>, s: nat, p: nat, q: nat)
    requires s <= |text| && AtBits(dividers, text, s, p) && p < q == RunEnd(text, p, 2) < p + 4 && q < |text|
    requires dividers && (text[q] == UNDERSCORE || text[q] == DOT)
    ensures AtBits(dividers, text, s, q + 1)
    ensures GroupedNumber(text, s, q + 1, 2) == GroupedNumber(text, s, q, 2)
  {
    var f := Format(2, dividers);
    RunInBits(dividers, text, s, p);
    GroupGrows(text, s, p, q, 2);
    AfterDivider(text, s, q, 2);
    hide GroupedNumber, GroupedEnd, RunEnd, GroupLength;
    assert SkippedAt(text, s, q, f);
    GroupedGoesOn(text, s, q, f);
  }

  /** The loop of fio_atol_bin: it stops where the numeral ends or the top bit is
      set. */
  method ReadBits(dividers: bool, text: seq<byte>, s: nat) returns (r: nat, p: nat)
    requires s < |text| && Terminated(text, s)
    ensures p < |text| && GroupedFit(text, s, Format(2, dividers), r, p, IsDigit(text[p], 2))
  {
    BitsStart(dividers, text, s);
    hide RunEnd, And, GroupedNumber, GroupedFit, AtBits, IsDigit;
    r, p := 0, s;
    while true
      invariant p < |text| && AtBits(dividers, text, s, p) && r == GroupedNumber(text, s, p, 2) < BASE
      decreases |text| - p
    {
      BitRoom(r, 0);
      ByteRoom(r, 0);
      NibbleRoom(r, 0);
      RunInBits(dividers, text, s, p);
      if And(r, 0x8000_0000_0000_0000) != 0 {
        NoDividerHere(dividers, text, s, p);
        BitsStop(dividers, text, s, p, r);
        return;
      }
      var len := LeadingBits(text, p);
      if len == 0 {
        NoDividerHere(dividers, text, s, p);
        BitsStop(dividers, text, s, p, r);
        return;
      }
      if len == 8 && And(r, 0xFF00_0000_0000_0000) == 0 {
        r := TakeEight(text, s, r, p);
        BitsTaken(dividers, text, s, p, 8);
        p := p + 8;
        continue;
      }
      if 4 <= len < 8 && And(r, 0xF000_0000_0000_0000) == 0 {
        r := TakeFour(text, s, r, p);
        BitsTaken(dividers, text, s, p, 4);
        p := p + 4;
        continue;
      }
      ghost var p0 := p;
      r, p := SlowBits(text, s, r, p);
      if dividers && (text[p] == UNDERSCORE || text[p] == DOT) {
        EndOfDigits(text, p0, p);
        if len >= 4 {
          NoStepFits(text, s, p0, p, if len == 8 then 8 else 4);
        }
        BitsDivider(dividers, text, s, p0, p);
        p := p + 1;
        continue;
      }
      BitsStop(dividers, text, s, p, r);
      return;
    }
  }

  lemma NoDividerHere(dividers: bool, text: seq<byte>, s: nat, p: nat)
    requires s <= |text| && AtBits(dividers, text, s, p)
    ensures s <= p <= GroupedEnd(text, s, Format(2, dividers)) < |text|
    ensures !SkippedAt(text, s, p, Format(2, dividers))
  {
  }

  lemma EndOfDigits(text: seq<byte>, p: nat, q: nat)
    requires p <= q < |text| && q <= RunEnd(text, p, 2) && (text[q] == UNDERSCORE || text[q] == DOT)
    ensures q == RunEnd(text, p, 2)
  {
    RunGoesOn(text, p, q, 2);
  }
}
