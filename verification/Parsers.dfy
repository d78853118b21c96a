/** Reading unsigned numbers. A text is a sequence of bytes, a position an index
    into it; every reader returns the number, the position after what it has
    consumed, and whether it reported an overflow (errno set to E2BIG). */
module Parsers {
  import opened Bytes
  import opened Words
  import opened Bitwise
  import opened Numerals
  import opened Swar

  const MAX: nat := BASE - 1
  const MINUS: byte := 45
  const PLUS: byte := 43
  const ZERO: byte := 48
  const UNDERSCORE: byte := 95
  const DOT: byte := 46
  const LOWER_B: byte := 98
  const LOWER_X: byte := 120

  /** The longest prefix of the digit run from i whose number fits a word ends
      at p, and the overflow is reported exactly if the run goes on. */
  ghost predicate LongestFit(text: seq<byte>, i: nat, base: nat, r: nat, p: nat, e2big: bool)
    requires i <= |text|
  {
    && i <= p <= RunEnd(text, i, base)
    && r == Number(text, i, p, base) < BASE
    && (e2big <==> p < RunEnd(text, i, base))
    && (e2big ==> Number(text, i, p + 1, base) >= BASE)
  }

  /** So the overflow is reported exactly if the whole run does not fit. */
  lemma OverflowIsExact(text: seq<byte>, i: nat, base: nat, r: nat, p: nat, e2big: bool)
    requires i <= |text| && base >= 1 && LongestFit(text, i, base, r, p, e2big)
    ensures e2big <==> Number(text, i, RunEnd(text, i, base), base) >= BASE
  {
    if e2big {
      NumberGrows(text, i, p + 1, RunEnd(text, i, base), base);
    }
  }

  /** It is the longest prefix of the run whose number is below 2 to the 64. */
  lemma LongestPrefix(text: seq<byte>, i: nat, base: nat, r: nat, p: nat, e2big: bool, q: nat)
    requires i <= |text| && base >= 1 && LongestFit(text, i, base, r, p, e2big)
    requires i <= q <= RunEnd(text, i, base)
    ensures Number(text, i, q, base) < 0x1_0000_0000_0000_0000 <==> q <= p
    ensures i <= p && r == Number(text, i, p, base) && (e2big <==> p < RunEnd(text, i, base))
  {
    if q <= p {
      NumberGrows(text, i, q, p, base);
    } else {
      NumberGrows(text, i, p + 1, q, base);
    }
  }

  lemma NextDigit(text: seq<byte>, i: nat, p: nat, base: nat)
    requires i <= p < |text|
    ensures Number(text, i, p + 1, base) == Number(text, i, p, base) * base + DigitOf(text[p], base)
  {
  }

  lemma RunGoesOn(text: seq<byte>, i: nat, p: nat, base: nat)
    requires i <= |text| && i <= p <= RunEnd(text, i, base)
    ensures p < RunEnd(text, i, base) <==> p < |text| && IsDigit(text[p], base)
  {
  }

  // ---- Bounded readers ----

  /** fio_stol10u: decimal digits up to the end of the text. */
  method Stol10u(text: seq<byte>, pos: nat) returns (r: nat, p: nat, e2big: bool)
    requires pos <= |text|
    ensures LongestFit(text, pos, 10, r, p, e2big)
  {
    r, p, e2big := 0, pos, false;
    while p < |text|
      invariant pos <= p <= RunEnd(text, pos, 10)
      invariant r == Number(text, pos, p, 10) < BASE && !e2big
    {
      RunGoesOn(text, pos, p, 10);
      if !(48 <= text[p] <= 57) {
        break;
      }
      var d := text[p] as int - 48;
      NextDigit(text, pos, p, 10);
      if r > (MAX - d) / 10 {
        e2big := true;
        break;
      }
      r := r * 10 + d;
      p := p + 1;
    }
  }

  /** The top n bits of a word are not all clear. */
  function TopBits(r: nat, n: nat): bool
    requires n <= 64
  {
    MulNonNegative(Pow2(64 - n), Pow2(n) - 1);
    And(r, Pow2(64 - n) * (Pow2(n) - 1)) != 0
  }

  lemma TopBitsMeans(r: nat, n: nat)
    requires r < BASE && n <= 64
    ensures TopBits(r, n) <==> r >= Pow2(64 - n)
  {
    WordPower();
    PowSum(64 - n, n);
    AndHigh(r, 64 - n, n);
  }

  lemma WordPower()
    ensures Pow2(64) == BASE && Pow2(63) == BASE / 2 && Pow2(61) == BASE / 8 && Pow2(60) == BASE / 16
    ensures Pow2(56) == BASE / 256
  {
    Powers();
    PowDouble(32);
    assert Pow2(62) == 2 * Pow2(61) && Pow2(60) == 2 * Pow2(59) && Pow2(58) == 2 * Pow2(57);
  }

  /** Shifting in one more digit of n bits. */
  lemma ShiftIn(r: nat, d: nat, n: nat)
    requires d < Pow2(n) && Pow2(n) * r < BASE
    ensures Pow2(n) * r >= 0 && Or(Pow2(n) * r % BASE, d) == Pow2(n) * r + d
  {
    MulNonNegative(Pow2(n), r);
    OrAddLow(r, d, n);
    hide Or, Pow2;
    Small(Pow2(n) * r);
  }

  lemma Small(x: nat)
    requires x < BASE
    ensures x % BASE == x
  {
  }

  lemma HexMasks()
    ensures Pow2(60) * (Pow2(4) - 1) == 0xF000_0000_0000_0000
    ensures Pow2(61) * (Pow2(3) - 1) == 0xE000_0000_0000_0000
    ensures Pow2(56) * (Pow2(8) - 1) == 0xFF00_0000_0000_0000
    ensures Pow2(63) * (Pow2(1) - 1) == 0x8000_0000_0000_0000
    ensures Pow2(3) == 8 && Pow2(4) == 16 && Pow2(1) == 2
  {
    WordPower();
    Powers();
    assert Pow2(4) == 2 * Pow2(3) && Pow2(3) == 2 * Pow2(2) && Pow2(1) == 2 * Pow2(0);
  }

  /** A nonzero top hexadecimal digit leaves no room for another one. */
  lemma HexRoom(r: nat, d: nat)
    requires r < BASE && d < 16
    ensures And(r, 0xF000_0000_0000_0000) != 0 <==> 16 * r + d >= BASE
    ensures 16 * r + d < BASE ==> Or(16 * r % BASE, d) == 16 * r + d
  {
    HexMasks();
    TopBitsMeans(r, 4);
    WordPower();
    if 16 * r + d < BASE {
      ShiftIn(r, d, 4);
    }
  }

  /** fio_stol16u: hexadecimal digits up to the end of the text. */
  method Stol16u(text: seq<byte>, pos: nat) returns (r: nat, p: nat, e2big: bool)
    requires pos <= |text|
    ensures LongestFit(text, pos, 16, r, p, e2big)
  {
    r, p, e2big := 0, pos, false;
    while p < |text|
      invariant pos <= p <= RunEnd(text, pos, 16)
      invariant r == Number(text, pos, p, 16) < BASE && !e2big
    {
      hide And, Or;
      RunGoesOn(text, pos, p, 16);
      var d := DigitOf(text[p], 16);
      if d > 15 {
        break;
      }
      NextDigit(text, pos, p, 16);
      HexRoom(r, d);
      if And(r, 0xF000_0000_0000_0000) != 0 {
        e2big := true;
        break;
      }
      r := Or(16 * r % BASE, d);
      p := p + 1;
    }
  }

  // ---- Readers of NUL-terminated strings ----

  /** A NUL ends the string at or after position i. */
  predicate Terminated(text: seq<byte>, i: nat) {
    exists k :: i <= k < |text| && text[k] == 0
  }

  /** Every digit run ends before the NUL. */
  lemma RunStops(text: seq<byte>, i: nat, base: nat)
    requires i <= |text| && Terminated(text, i) && base <= 36
    ensures RunEnd(text, i, base) < |text| && Terminated(text, RunEnd(text, i, base))
  {
    var k :| i <= k < |text| && text[k] == 0;
    assert !IsDigit(text[k], base);
    assert RunEnd(text, i, base) <= k;
  }

  /** Moving past a byte that is not the NUL. */
  lemma StillTerminated(text: seq<byte>, i: nat)
    requires i < |text| && Terminated(text, i) && text[i] != 0
    ensures i + 1 < |text| && Terminated(text, i + 1)
  {
    var k :| i <= k < |text| && text[k] == 0;
  }

  /** Either case of a letter, as `c | 32` compares it. */
  predicate IsLetter(c: byte, lower: byte) {
    c == lower || c + 32 == lower
  }

  predicate HasPrefix(text: seq<byte>, i: nat, letter: byte) {
    i + 1 < |text| && text[i] == ZERO && IsLetter(text[i + 1], letter)
  }

  lemma PrefixBytes(text: seq<byte>, i: nat)
    ensures HasPrefix(text, i, LOWER_X)
      <==> i + 1 < |text| && text[i] == 48 && (text[i + 1] == 88 || text[i + 1] == 120)
  {
  }

  /** An optional 0x, then hexadecimal digits. Without a digit nothing is
      consumed but, after a prefix, its zero. */
  ghost predicate HexFit(text: seq<byte>, pos: nat, r: nat, p: nat, e2big: bool)
    requires pos <= |text|
  {
    var s := if HasPrefix(text, pos, LOWER_X) then pos + 2 else pos;
    if RunEnd(text, s, 16) > s then LongestFit(text, s, 16, r, p, e2big)
    else r == 0 && !e2big && p == if s > pos then pos + 1 else pos
  }

  /** The loop of fio_atol16u, from a first digit. */
  method HexDigits(text: seq<byte>, s: nat) returns (r: nat, p: nat, e2big: bool)
    requires s < |text| && Terminated(text, s) && DigitOf(text[s], 16) <= 15
    ensures LongestFit(text, s, 16, r, p, e2big)
  {
    hide And, Or, RunEnd, Terminated;
    RunStops(text, s, 16);
    RunGoesOn(text, s, s, 16);
    assert Number(text, s, s, 16) == 0;
    var d := DigitOf(text[s], 16);
    r, p, e2big := d, s + 1, false;
    NextDigit(text, s, s, 16);
    while true
      invariant s < p <= RunEnd(text, s, 16) < |text|
      invariant r == Number(text, s, p, 16) < BASE && !e2big
      decreases |text| - p
    {
      hide Number, DigitOf;
      RunGoesOn(text, s, p, 16);
      d := DigitOf(text[p], 16);
      if d > 15 {
        return;
      }
      NextDigit(text, s, p, 16);
      HexRoom(r, d);
      if And(r, 0xF000_0000_0000_0000) != 0 {
        e2big := true;
        return;
      }
      r := Or(16 * r % BASE, d);
      p := p + 1;
    }
  }

  /** fio_atol16u */
  method Atol16u(text: seq<byte>, pos: nat) returns (r: nat, p: nat, e2big: bool)
    requires pos < |text| && Terminated(text, pos)
    ensures HexFit(text, pos, r, p, e2big)
  {
    hide RunEnd, Terminated, Number, LongestFit, DigitOf;
    var s := pos;
    if text[s] == ZERO {
      StillTerminated(text, s);
      if IsLetter(text[s + 1], LOWER_X) {
        StillTerminated(text, s + 1);
        s := s + 2;
      }
    }
    RunStops(text, s, 16);
    RunGoesOn(text, s, s, 16);
    if DigitOf(text[s], 16) > 15 {
      r, p, e2big := 0, if s > pos then pos + 1 else pos, false;
    } else {
      r, p, e2big := HexDigits(text, s);
    }
  }
}
