/** Numerals with dividers, as FIO_ATOL_ALLOW_UNDERSCORE_DIVIDER lets the readers
    accept them: digits in groups, with a divider after a group. */
module Dividers {
  import opened Bytes
  import opened Words
  import opened Numerals
  import opened Parsers

  /** A base, and whether dividers are allowed. */
  datatype Format = Format(base: nat, dividers: bool)

  predicate IsDivider(c: byte, f: Format) {
    f.dividers && (c == UNDERSCORE || (f.base == 2 && c == DOT))
  }

  /** How many digits stand directly before p. */
  function GroupLength(text: seq<byte>, i: nat, p: nat, base: nat): (g: nat)
    requires i <= p <= |text|
    ensures g <= p - i
  {
    if p == i || !IsDigit(text[p - 1], base) then 0 else 1 + GroupLength(text, i, p - 1, base)
  }

  /** Which groups a divider may follow. The fast paths of the decimal reader end
      a first group of four or eight digits, those of the binary reader any group
      of a multiple of four. */
  predicate MayFollow(g: nat, first: bool, base: nat) {
    g > 0 && (base == 10 ==> !(first && (g == 4 || g == 8))) && (base == 2 ==> g % 4 != 0)
  }

  /** The divider at p is skipped. */
  predicate SkippedAt(text: seq<byte>, i: nat, p: nat, f: Format)
    requires i <= p <= |text|
  {
    p < |text| && IsDivider(text[p], f)
    && var g := GroupLength(text, i, p, f.base); MayFollow(g, g == p - i, f.base)
  }

  predicate GoesOnAt(text: seq<byte>, i: nat, p: nat, f: Format)
    requires i <= p <= |text|
  {
    p < |text| && (IsDigit(text[p], f.base) || SkippedAt(text, i, p, f))
  }

  /** The end of the numeral that starts at i, of which i to p is known. */
  function EndFrom(text: seq<byte>, i: nat, p: nat, f: Format): (e: nat)
    requires i <= p <= |text|
    ensures p <= e <= |text|
    ensures forall k :: p <= k < e ==> GoesOnAt(text, i, k, f)
    ensures !GoesOnAt(text, i, e, f)
    decreases |text| - p
  {
    if GoesOnAt(text, i, p, f) then EndFrom(text, i, p + 1, f) else p
  }

  /** The end of the numeral that starts at i. */
  function GroupedEnd(text: seq<byte>, i: nat, f: Format): (e: nat)
    requires i <= |text|
    ensures i <= e <= |text|
  {
    EndFrom(text, i, i, f)
  }

  /** The number written by the digits in text[i..p]. */
  function GroupedNumber(text: seq<byte>, i: nat, p: nat, base: nat): nat
    requires i <= p <= |text|
    decreases p - i
  {
    if i == p then 0
    else
      var n := GroupedNumber(text, i, p - 1, base);
      if IsDigit(text[p - 1], base) then n * base + DigitOf(text[p - 1], base) else n
  }

  // ---- Reading on ----

  lemma GroupedGoesOn(text: seq<byte>, i: nat, p: nat, f: Format)
    requires i <= |text| && i <= p <= GroupedEnd(text, i, f)
    ensures p <= |text| && (p < GroupedEnd(text, i, f) <==> GoesOnAt(text, i, p, f))
  {
  }

  lemma AfterDigit(text: seq<byte>, i: nat, p: nat, base: nat)
    requires i <= p < |text| && IsDigit(text[p], base)
    ensures GroupedNumber(text, i, p + 1, base) == GroupedNumber(text, i, p, base) * base + DigitOf(text[p], base)
    ensures GroupLength(text, i, p + 1, base) == GroupLength(text, i, p, base) + 1
  {
  }

  lemma AfterDivider(text: seq<byte>, i: nat, p: nat, base: nat)
    requires i <= p < |text| && !IsDigit(text[p], base)
    ensures GroupedNumber(text, i, p + 1, base) == GroupedNumber(text, i, p, base)
    ensures GroupLength(text, i, p + 1, base) == 0
  {
  }

  /** A later end never makes the number smaller, */
  lemma {:induction false} GroupedGrows(text: seq<byte>, i: nat, j: nat, k: nat, base: nat)
    requires i <= j <= k <= |text| && base >= 1
    ensures GroupedNumber(text, i, j, base) <= GroupedNumber(text, i, k, base)
    decreases k
  {
    if j < k {
      GroupedGrows(text, i, j, k - 1, base);
      Scaled(GroupedNumber(text, i, k - 1, base), base);
    }
  }

  /** and a digit on the way makes it greater by a factor. */
  lemma GroupedScales(text: seq<byte>, i: nat, j: nat, k: nat, base: nat)
    requires i <= j < k <= |text| && base >= 1 && (IsDigit(text[j], base) || IsDigit(text[k - 1], base))
    ensures GroupedNumber(text, i, j, base) * base <= GroupedNumber(text, i, k, base)
  {
    if IsDigit(text[j], base) {
      AfterDigit(text, i, j, base);
      GroupedGrows(text, i, j + 1, k, base);
    } else {
      AfterDigit(text, i, k - 1, base);
      GroupedGrows(text, i, j, k - 1, base);
      ScaledLe(base, GroupedNumber(text, i, j, base), GroupedNumber(text, i, k - 1, base));
    }
  }

  lemma ScaledLe(base: nat, m: nat, n: nat)
    requires m <= n
    ensures m * base <= n * base
  {
  }

  /** The NUL ends every numeral. */
  lemma GroupedStops(text: seq<byte>, i: nat, f: Format)
    requires i < |text| && Terminated(text, i) && f.base <= 36
    ensures GroupedEnd(text, i, f) < |text|
  {
    var k :| i <= k < |text| && text[k] == 0;
    assert !GoesOnAt(text, i, k, f);
    assert GroupedEnd(text, i, f) <= k;
  }

  /** More digits of a group. */
  lemma {:induction false} GroupGrows(text: seq<byte>, i: nat, p: nat, q: nat, base: nat)
    requires i <= p <= q <= |text| && forall k :: p <= k < q ==> IsDigit(text[k], base)
    ensures GroupLength(text, i, q, base) == GroupLength(text, i, p, base) + (q - p)
    decreases q
  {
    if p < q {
      GroupGrows(text, i, p, q - 1, base);
    }
  }

  lemma RunInside(text: seq<byte>, i: nat, p: nat, f: Format)
    requires i <= |text| && i <= p <= GroupedEnd(text, i, f)
    ensures RunEnd(text, p, f.base) <= GroupedEnd(text, i, f)
  {
    assert !GoesOnAt(text, i, GroupedEnd(text, i, f), f);
  }

  /** The longest prefix of the numeral whose number fits a word ends at p, and
      the overflow is reported exactly if the numeral goes on. */
  ghost predicate GroupedFit(text: seq<byte>, i: nat, f: Format, r: nat, p: nat, e2big: bool)
    requires i <= |text|
  {
    && i <= p <= GroupedEnd(text, i, f)
    && r == GroupedNumber(text, i, p, f.base) < BASE
    && (e2big <==> p < GroupedEnd(text, i, f))
    && (e2big ==> GroupedNumber(text, i, p + 1, f.base) >= BASE)
  }

  /** So the overflow is reported exactly if the whole numeral does not fit. */
  lemma GroupedOverflowIsExact(text: seq<byte>, i: nat, f: Format, r: nat, p: nat, e2big: bool)
    requires i <= |text| && f.base >= 1 && GroupedFit(text, i, f, r, p, e2big)
    ensures e2big <==> GroupedNumber(text, i, GroupedEnd(text, i, f), f.base) >= BASE
  {
    if e2big {
      GroupedGrows(text, i, p + 1, GroupedEnd(text, i, f), f.base);
    }
  }

  // ---- Numerals without dividers ----

  lemma {:induction false} OneGroup(text: seq<byte>, i: nat, p: nat, base: nat)
    requires i <= p <= |text|
    ensures GroupLength(text, i, p, base) == p - i <==> forall k :: i <= k < p ==> IsDigit(text[k], base)
    ensures GroupLength(text, i, p, base) == p - i ==> GroupedNumber(text, i, p, base) == Number(text, i, p, base)
    decreases p
  {
    if i < p {
      OneGroup(text, i, p - 1, base);
    }
  }

  lemma {:induction false} EndsAt(text: seq<byte>, i: nat, p: nat, e: nat, f: Format)
    requires i <= p <= e <= |text| && !GoesOnAt(text, i, e, f)
    requires forall k :: p <= k < e ==> GoesOnAt(text, i, k, f)
    ensures EndFrom(text, i, p, f) == e
    decreases e - p
  {
    if p < e {
      EndsAt(text, i, p + 1, e, f);
    }
  }

  /** Where no divider is skipped after the digit run, that is the numeral. */
  lemma Undivided(text: seq<byte>, i: nat, f: Format)
    requires i <= |text|
    requires var e := RunEnd(text, i, f.base); e < |text| ==> !IsDivider(text[e], f)
    ensures GroupedEnd(text, i, f) == RunEnd(text, i, f.base)
  {
    EndsAt(text, i, i, RunEnd(text, i, f.base), f);
  }

  lemma UndividedNumber(text: seq<byte>, i: nat, p: nat, base: nat)
    requires i <= |text| && i <= p <= RunEnd(text, i, base)
    ensures GroupedNumber(text, i, p, base) == Number(text, i, p, base)
  {
    OneGroup(text, i, p, base);
  }

  /** A divider after the first group of digits, an underscore or in base 2 also a
      dot, is skipped exactly if the fast paths do not take the group whole;
      otherwise the numeral ends there. */
  lemma FirstDivider(text: seq<byte>, i: nat, f: Format)
    requires i <= |text| && f.base <= 36 && f.dividers
    requires var e := RunEnd(text, i, f.base); e < |text| && (text[e] == 95 || (f.base == 2 && text[e] == 46))
    ensures var e := RunEnd(text, i, f.base);
      var g := e - i;
      var skipped := g > 0 && (f.base == 10 ==> g != 4 && g != 8) && (f.base == 2 ==> g % 4 != 0);
      GroupedEnd(text, i, f) >= e && (GroupedEnd(text, i, f) > e <==> skipped)
  {
    var e := RunEnd(text, i, f.base);
    OneGroup(text, i, e, f.base);
    if MayFollow(e - i, true, f.base) {
      assert SkippedAt(text, i, e, f);
      ReachesBeyond(text, i, f, e + 1);
    } else {
      assert !IsDigit(text[e], f.base);
      EndsAt(text, i, i, e, f);
    }
  }

  /** After a later group, which has no digit directly before it, and nowhere else. */
  lemma LaterDivider(text: seq<byte>, i: nat, b: nat, p: nat, f: Format)
    requires i < b <= p < |text| && f.base <= 36 && !IsDigit(text[b - 1], f.base)
    requires forall k :: b <= k < p ==> IsDigit(text[k], f.base)
    ensures GoesOnAt(text, i, p, f) <==>
      || IsDigit(text[p], f.base)
      || (f.dividers && text[p] == 95 && p > b && (f.base == 2 ==> (p - b) % 4 != 0))
      || (f.dividers && text[p] == 46 && f.base == 2 && (p - b) % 4 != 0)
  {
    GroupGrows(text, i, b, p, f.base);
    assert GroupLength(text, i, b, f.base) == 0;
  }

  lemma ReachesBeyond(text: seq<byte>, i: nat, f: Format, e: nat)
    requires i <= e <= |text| && forall k :: i <= k < e ==> GoesOnAt(text, i, k, f)
    ensures GroupedEnd(text, i, f) >= e
  {
  }

  // ---- The same numeral further on in a text ----

  lemma {:induction false} NumberShift(front: seq<byte>, t: seq<byte>, i: nat, p: nat, base: nat)
    requires i <= p <= |t|
    ensures GroupLength(front + t, |front| + i, |front| + p, base) == GroupLength(t, i, p, base)
    ensures GroupedNumber(front + t, |front| + i, |front| + p, base) == GroupedNumber(t, i, p, base)
    decreases p
  {
    if i < p {
      NumberShift(front, t, i, p - 1, base);
      assert |front| + (p - 1) == |front| + p - 1 && (front + t)[|front| + p - 1] == t[p - 1];
    }
  }

  lemma GoesOnShift(front: seq<byte>, t: seq<byte>, i: nat, p: nat, f: Format)
    requires i <= p <= |t|
    ensures GoesOnAt(front + t, |front| + i, |front| + p, f) <==> GoesOnAt(t, i, p, f)
  {
    NumberShift(front, t, i, p, f.base);
    assert p < |t| ==> (front + t)[|front| + p] == t[p];
    hide GroupLength, GroupedNumber, IsDigit;
  }

  lemma {:induction false} EndShift(front: seq<byte>, t: seq<byte>, i: nat, p: nat, f: Format)
    requires i <= p <= |t|
    ensures EndFrom(front + t, |front| + i, |front| + p, f) == |front| + EndFrom(t, i, p, f)
    decreases |t| - p
  {
    GoesOnShift(front, t, i, p, f);
    hide GoesOnAt;
    if GoesOnAt(t, i, p, f) {
      assert p < |t| by {
        GoesOnInside(t, i, p, f);
      }
      EndShift(front, t, i, p + 1, f);
      assert |front| + (p + 1) == |front| + p + 1;
    }
  }

  lemma GoesOnInside(t: seq<byte>, i: nat, p: nat, f: Format)
    requires i <= p <= |t| && GoesOnAt(t, i, p, f)
    ensures p < |t|
  {
  }

  // ---- What a grouped numeral stands for ----

  function DigitsOnly(s: seq<byte>, base: nat): (t: seq<byte>)
    ensures |t| <= |s| && forall c :: c in t ==> IsDigit(c, base)
  {
    if s == [] then [] else
      var c := s[|s| - 1];
      DigitsOnly(s[..|s| - 1], base) + if IsDigit(c, base) then [c] else []
  }

  /** It is the number of its digits, written without dividers. */
  lemma {:induction false} GroupedIsPlain(text: seq<byte>, i: nat, p: nat, base: nat)
    requires i <= p <= |text|
    ensures var t := DigitsOnly(text[i..p], base); GroupedNumber(text, i, p, base) == Number(t, 0, |t|, base)
    decreases p
  {
    if i < p {
      GroupedIsPlain(text, i, p - 1, base);
      DigitsSnoc(text, i, p, base);
      var t, u := DigitsOnly(text[i..p], base), DigitsOnly(text[i..p - 1], base);
      hide DigitsOnly, DigitOf, IsDigit;
      SamePrefix(t, u, |u|, base);
    }
  }

  lemma DigitsSnoc(text: seq<byte>, i: nat, p: nat, base: nat)
    requires i < p <= |text|
    ensures DigitsOnly(text[i..p], base)
         == DigitsOnly(text[i..p - 1], base) + if IsDigit(text[p - 1], base) then [text[p - 1]] else []
  {
    assert text[i..p][..p - 1 - i] == text[i..p - 1];
  }

  lemma {:induction false} SamePrefix(t: seq<byte>, u: seq<byte>, n: nat, base: nat)
    requires n <= |u| && u <= t
    ensures Number(t, 0, n, base) == Number(u, 0, n, base)
  {
    if n > 0 {
      SamePrefix(t, u, n - 1, base);
    }
  }
}
