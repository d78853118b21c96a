/** Positional numerals: digits of a number, the number of a digit run in a
    text, and the byte that stands for each digit. */
module Numerals {
  import opened Bytes
  import opened Modular
  import opened NumberTheory

  /** Digits of n, most significant first, without leading zeros. */
  function Digits(n: nat, base: nat): (ds: seq<nat>)
    requires base >= 2
    ensures |ds| >= 1 && forall k :: 0 <= k < |ds| ==> ds[k] < base
  {
    if n < base then [n] else
      Shrinks(n, base);
      Digits(n / base, base) + [n % base]
  }

  lemma Shrinks(n: nat, base: nat)
    requires n >= base >= 2
    ensures 0 < n / base < n
  {
    var q := n / base;
    assert n == q * base + n % base;
    BelowOne(1 - q, base);
    assert q * base == 2 * q + q * (base - 2);
    assert q * (base - 2) >= 0;
  }

  /** The number a digit sequence stands for. */
  function Value(ds: seq<nat>, base: nat): nat {
    if ds == [] then 0 else Value(ds[..|ds| - 1], base) * base + ds[|ds| - 1]
  }

  lemma ValueSnoc(ds: seq<nat>, d: nat, base: nat)
    ensures Value(ds + [d], base) == Value(ds, base) * base + d
  {
    assert (ds + [d])[..|ds|] == ds;
  }

  lemma {:induction false} ValueOfDigits(n: nat, base: nat)
    requires base >= 2
    ensures Value(Digits(n, base), base) == n
  {
    if n < base {
      assert [n][..0] == [];
    } else {
      var q, r := n / base, n % base;
      Shrinks(n, base);
      DivSplit(n, base);
      ValueOfDigits(q, base);
      assert Digits(n, base) == Digits(q, base) + [r];
      hide Value, Digits;
      ValueSnoc(Digits(q, base), r, base);
    }
  }

  /** fio_i2c: digits above 9 are upper-case letters. */
  function CharOf(d: nat): (c: byte) {
    if d < 10 then 48 + d else if d < 36 then 55 + d else 0
  }

  /** fio_c2i: letters of either case stand for 10 to 35, other bytes for 255. The
      table of the source has a second row of decimal digits, at 16 to 25. */
  function TableDigit(c: byte): (d: nat)
    ensures d < 256
  {
    if 16 <= c <= 25 then c - 16
    else if 48 <= c <= 57 then c - 48
    else if 65 <= c <= 90 then c - 55
    else if 97 <= c <= 122 then c - 87
    else 255
  }

  /** What a byte stands for in a base: the readers for bases 2 and 10 compare it
      with the decimal digits, the others look it up in the table. */
  function DigitOf(c: byte, base: nat): (d: nat)
    ensures d < 256
  {
    if base == 2 || base == 10 then (if 48 <= c <= 57 then c - 48 else 255) else TableDigit(c)
  }

  lemma CharDigit(d: nat, base: nat)
    requires d < base <= 36
    ensures DigitOf(CharOf(d), base) == d
  {
  }

  /** The bytes that write the given digits. */
  function Chars(ds: seq<nat>): (t: seq<byte>)
    ensures |t| == |ds| && forall k :: 0 <= k < |t| ==> t[k] == CharOf(ds[k])
  {
    seq(|ds|, k requires 0 <= k < |ds| => CharOf(ds[k]))
  }

  /** The numeral of n. */
  function Text(n: nat, base: nat): seq<byte>
    requires base >= 2
  {
    Chars(Digits(n, base))
  }

  /** The lowest k digits of n, with leading zeros. */
  function Fixed(n: nat, base: nat, k: nat): (ds: seq<nat>)
    requires base >= 1
    ensures |ds| == k && forall j :: 0 <= j < k ==> ds[j] < base
    decreases k
  {
    if k == 0 then [] else Fixed(n / base, base, k - 1) + [n % base]
  }

  /** n without its lowest k digits. */
  function Shift(n: nat, base: nat, k: nat): nat
    requires base >= 1
    decreases k
  {
    if k == 0 then n else Shift(n / base, base, k - 1)
  }

  lemma {:induction false} ShiftOne(n: nat, base: nat, k: nat)
    requires base >= 1
    ensures Shift(n, base, k + 1) == Shift(n, base, k) / base
    decreases k
  {
    if k > 0 {
      ShiftOne(n / base, base, k - 1);
    }
  }

  /** The next digit to write in front of the lowest k digits. */
  lemma {:induction false} FixedPrepend(n: nat, base: nat, k: nat)
    requires base >= 1
    ensures Fixed(n, base, k + 1) == [Shift(n, base, k) % base] + Fixed(n, base, k)
    decreases k
  {
    if k > 0 {
      FixedPrepend(n / base, base, k - 1);
    }
  }

  /** The digits without leading zeros are the lowest ones, as many as there are. */
  lemma {:induction false} DigitsAreFixed(n: nat, base: nat)
    requires base >= 2
    ensures Digits(n, base) == Fixed(n, base, |Digits(n, base)|)
  {
    if n < base {
      DivModUnique(n, 0, n, base);
      assert Fixed(n, base, 1) == Fixed(0, base, 0) + [n];
    } else {
      Shrinks(n, base);
      DigitsAreFixed(n / base, base);
    }
  }

  lemma FixedSnoc(n: nat, base: nat, k: nat)
    requires base >= 1
    ensures k == 0 ==> Value(Fixed(n, base, k), base) == 0
    ensures k > 0 ==> Value(Fixed(n, base, k), base) == Value(Fixed(n / base, base, k - 1), base) * base + n % base
  {
    if k > 0 {
      assert Fixed(n, base, k) == Fixed(n / base, base, k - 1) + [n % base];
      hide *;
      ValueSnoc(Fixed(n / base, base, k - 1), n % base, base);
    }
  }

  lemma {:induction false} ValueOfFixed(n: nat, base: nat, k: nat)
    requires base >= 1 && n < Power(base, k)
    ensures Value(Fixed(n, base, k), base) == n
    decreases k
  {
    hide *;
    FixedSnoc(n, base, k);
    PowerUnfold(base, k);
    if k > 0 {
      QuotientFits(n, base, Power(base, k - 1));
      ValueOfFixed(n / base, base, k - 1);
      Rebuild(Value(Fixed(n / base, base, k - 1), base), n, base);
    }
  }

  lemma Rebuild(q: nat, n: nat, base: nat)
    requires base >= 1 && q == n / base
    ensures q * base + n % base == n
  {
    DivSplit(n, base);
  }

  lemma PowerUnfold(base: nat, k: nat)
    requires base >= 1
    ensures Power(base, k) >= 1
    ensures Power(base, k) == if k == 0 then 1 else base * Power(base, k - 1)
  {
    if k > 0 {
      PowerUnfold(base, k - 1);
      assert base * Power(base, k - 1) >= 1;
    }
  }

  lemma QuotientFits(n: nat, base: nat, p: nat)
    requires base >= 1 && n < base * p
    ensures n / base < p
  {
    DivSplit(n, base);
    Below(n / base, p, base, n % base);
  }

  // ---- Digit runs in a text ----

  predicate IsDigit(c: byte, base: nat) {
    DigitOf(c, base) < base
  }

  /** The number written by the digits in text[i..j]. */
  function Number(text: seq<byte>, i: nat, j: nat, base: nat): nat
    requires i <= j <= |text|
    decreases j - i
  {
    if i == j then 0 else Number(text, i, j - 1, base) * base + DigitOf(text[j - 1], base)
  }

  /** The end of the digit run that starts at i. */
  function RunEnd(text: seq<byte>, i: nat, base: nat): (e: nat)
    requires i <= |text|
    ensures i <= e <= |text|
    ensures forall k :: i <= k < e ==> IsDigit(text[k], base)
    ensures e < |text| ==> !IsDigit(text[e], base)
    decreases |text| - i
  {
    if i < |text| && IsDigit(text[i], base) then RunEnd(text, i + 1, base) else i
  }

  /** A later end never makes the number smaller. */
  lemma {:induction false} NumberGrows(text: seq<byte>, i: nat, j: nat, k: nat, base: nat)
    requires i <= j <= k <= |text| && base >= 1
    ensures Number(text, i, j, base) <= Number(text, i, k, base)
    decreases k - j
  {
    if j < k {
      NumberGrows(text, i, j, k - 1, base);
      Scaled(Number(text, i, k - 1, base), base);
    }
  }

  lemma Scaled(x: nat, base: nat)
    requires base >= 1
    ensures x * base >= x
  {
    assert x * base == x + x * (base - 1);
    assert x * (base - 1) >= 0;
  }

  /** Reading back what a numeral writes. */
  lemma {:induction false} NumberOfText(text: seq<byte>, i: nat, ds: seq<nat>, base: nat)
    requires 2 <= base <= 36 && i + |ds| <= |text|
    requires forall k :: 0 <= k < |ds| ==> ds[k] < base && text[i + k] == CharOf(ds[k])
    ensures Number(text, i, i + |ds|, base) == Value(ds, base)
  {
    if ds != [] {
      var n := |ds| - 1;
      NumberOfText(text, i, ds[..n], base);
      CharDigit(ds[n], base);
      assert text[i + n] == CharOf(ds[n]);
    }
  }

  /** Where a run of known digits before a non-digit ends. */
  lemma {:induction false} RunEndsAt(text: seq<byte>, i: nat, e: nat, base: nat)
    requires i <= e < |text| && !IsDigit(text[e], base)
    requires forall k :: i <= k < e ==> IsDigit(text[k], base)
    ensures RunEnd(text, i, base) == e
  {
  }

  /** Digits written in a text, followed by a byte that is no digit, read back as
      their value and end where they were written to end. */
  lemma NumeralReadsBack(text: seq<byte>, i: nat, ds: seq<nat>, base: nat)
    requires 2 <= base <= 36 && i + |ds| < |text| && text[i..i + |ds|] == Chars(ds)
    requires forall k :: 0 <= k < |ds| ==> ds[k] < base
    requires !IsDigit(text[i + |ds|], base)
    ensures RunEnd(text, i, base) == i + |ds|
    ensures Number(text, i, i + |ds|, base) == Value(ds, base)
  {
    forall k | 0 <= k < |ds|
      ensures text[i + k] == CharOf(ds[k]) && IsDigit(text[i + k], base)
    {
      assert text[i..i + |ds|][k] == Chars(ds)[k];
      CharDigit(ds[k], base);
    }
    NumberOfText(text, i, ds, base);
    hide Value, Number, IsDigit;
    forall k | i <= k < i + |ds|
      ensures IsDigit(text[k], base)
    {
      assert text[i + (k - i)] == CharOf(ds[k - i]);
    }
    RunEndsAt(text, i, i + |ds|, base);
  }
}
