/** Word-parallel conversion of eight decimal text bytes to a number. */
module Swar {
  import opened Bytes
  import opened Words
  import opened Modular
  import opened Bitwise
  import opened Numerals

  /** Words made of two, four or eight lanes, least significant first. */
  function Lanes2(a: nat, b: nat, base: nat): nat {
    a + base * b
  }

  function Lanes4(a: nat, b: nat, c: nat, d: nat, base: nat): nat {
    Lanes2(a, Lanes2(b, Lanes2(c, d, base), base), base)
  }

  function Lanes8(a: nat, b: nat, c: nat, d: nat, e: nat, f: nat, g: nat, h: nat, base: nat): nat {
    Lanes2(a, Lanes2(b, Lanes2(c, Lanes2(d, Lanes4(e, f, g, h, base), base), base), base), base)
  }

  /** Eight bytes loaded little-endian. */
  function Load64Le(text: seq<byte>, p: nat): nat
    requires p + 8 <= |text|
  {
    Lanes8(text[p], text[p + 1], text[p + 2], text[p + 3], text[p + 4], text[p + 5], text[p + 6], text[p + 7], 0x100)
  }

  /** Mask, multiply and shift: eight digit bytes to pairs of digits, */
  function Pairs(w: nat): nat {
    And(w, 0x0F0F_0F0F_0F0F_0F0F) * 2561 % BASE / 0x100
  }

  /** pairs to numbers of four digits, */
  function Fours(w: nat): nat {
    And(w, 0x00FF_00FF_00FF_00FF) * 6553601 % BASE / 0x1_0000
  }

  /** and those to the number of eight digits. */
  function Eight(w: nat): nat {
    And(w, 0x0000_FFFF_0000_FFFF) * 42949672960001 % BASE / 0x1_0000_0000
  }

  function EightDigits(w: nat): nat {
    Eight(Fours(Pairs(w)))
  }

  lemma Powers()
    ensures Pow2(4) == 0x10 && Pow2(8) == 0x100 && Pow2(16) == 0x1_0000 && Pow2(32) == 0x1_0000_0000
  {
    assert Pow2(4) == 0x10;
    PowDouble(4); PowDouble(8); PowDouble(16);
  }

  lemma {:induction false} PowSum(m: nat, n: nat)
    ensures Pow2(m + n) == Pow2(m) * Pow2(n)
  {
    if m > 0 {
      PowSum(m - 1, n);
      assert 2 * (Pow2(m - 1) * Pow2(n)) == 2 * Pow2(m - 1) * Pow2(n);
    }
  }

  lemma PowDouble(m: nat)
    ensures Pow2(m + m) == Pow2(m) * Pow2(m)
  {
    PowSum(m, m);
  }

  /** Masking the lowest lane of a word with r ones. */
  lemma MaskLane(x: nat, hi: nat, m: nat, mhi: nat, k: nat, r: nat, base: nat, ones: nat)
    requires base == Pow2(k) && ones == Pow2(r) && m == ones - 1 && x < base && ones <= base
    ensures And(Lanes2(x, hi, base), Lanes2(m, mhi, base)) == Lanes2(x % ones, And(hi, mhi), base)
  {
    AndSplit(x, hi, m, mhi, k);
    AndMask(x, r);
  }

  /** The first mask leaves the digits of eight text bytes. */
  lemma DigitMask(a: nat, b: nat, c: nat, d: nat, e: nat, f: nat, g: nat, h: nat)
    requires a < 10 && b < 10 && c < 10 && d < 10 && e < 10 && f < 10 && g < 10 && h < 10
    ensures And(Lanes8(48 + a, 48 + b, 48 + c, 48 + d, 48 + e, 48 + f, 48 + g, 48 + h, 0x100), 0x0F0F_0F0F_0F0F_0F0F)
         == Lanes8(a, b, c, d, e, f, g, h, 0x100)
  {
    assert 0x0F0F_0F0F_0F0F_0F0F == Lanes8(15, 15, 15, 15, 15, 15, 15, 15, 0x100);
    AndMask(48 + h, 4);
    Powers();
    hide And, Lanes2, Pow2;
    DigitLane(a, Lanes2(48 + b, Lanes2(48 + c, Lanes2(48 + d,
              Lanes4(48 + e, 48 + f, 48 + g, 48 + h, 0x100), 0x100), 0x100), 0x100),
              Lanes2(15, Lanes2(15, Lanes2(15, Lanes4(15, 15, 15, 15, 0x100), 0x100), 0x100), 0x100));
    DigitLane(b, Lanes2(48 + c, Lanes2(48 + d, Lanes4(48 + e, 48 + f, 48 + g, 48 + h, 0x100), 0x100), 0x100),
              Lanes2(15, Lanes2(15, Lanes4(15, 15, 15, 15, 0x100), 0x100), 0x100));
    DigitLane(c, Lanes2(48 + d, Lanes4(48 + e, 48 + f, 48 + g, 48 + h, 0x100), 0x100),
              Lanes2(15, Lanes4(15, 15, 15, 15, 0x100), 0x100));
    DigitLane(d, Lanes4(48 + e, 48 + f, 48 + g, 48 + h, 0x100), Lanes4(15, 15, 15, 15, 0x100));
    DigitLane(e, Lanes2(48 + f, Lanes2(48 + g, 48 + h, 0x100), 0x100), Lanes2(15, Lanes2(15, 15, 0x100), 0x100));
    DigitLane(f, Lanes2(48 + g, 48 + h, 0x100), Lanes2(15, 15, 0x100));
    DigitLane(g, 48 + h, 15);
    DivModUnique(48 + h, 3, h, 16);
  }

  lemma DigitLane(d: nat, hi: nat, mhi: nat)
    requires d < 10
    ensures And(Lanes2(48 + d, hi, 0x100), Lanes2(15, mhi, 0x100)) == Lanes2(d, And(hi, mhi), 0x100)
  {
    Powers();
    MaskLane(48 + d, hi, 15, mhi, 8, 4, 0x100, 16);
    DivModUnique(48 + d, 3, d, 16);
  }

  /** A value whose top overflows the word, shifted down past its bottom lane. */
  lemma ShiftDown(x: nat, over: nat, p: nat, low: nat, base: nat)
    requires x == over * BASE + (p * base + low) && low < base && p * base + low < BASE
    ensures x % BASE / base == p
  {
    DivModUnique(x, over, p * base + low, BASE);
    DivModUnique(p * base + low, p, low, base);
  }

  /** Multiplying by 10 * 256 + 1 leaves the two-digit pairs one lane up. */
  lemma PairStep(d0: nat, d1: nat, d2: nat, d3: nat, d4: nat, d5: nat, d6: nat, d7: nat)
    requires d0 < 10 && d1 < 10 && d2 < 10 && d3 < 10 && d4 < 10 && d5 < 10 && d6 < 10 && d7 < 10
    ensures Lanes8(d0, d1, d2, d3, d4, d5, d6, d7, 0x100) * 2561 % BASE / 0x100
         == Lanes4((10 * d0 + d1) + 0x100 * (10 * d1 + d2), (10 * d2 + d3) + 0x100 * (10 * d3 + d4),
                   (10 * d4 + d5) + 0x100 * (10 * d5 + d6), 10 * d6 + d7, 0x1_0000)
  {
    ShiftDown(Lanes8(d0, d1, d2, d3, d4, d5, d6, d7, 0x100) * 2561, 10 * d7,
              Lanes4((10 * d0 + d1) + 0x100 * (10 * d1 + d2), (10 * d2 + d3) + 0x100 * (10 * d3 + d4),
                     (10 * d4 + d5) + 0x100 * (10 * d5 + d6), 10 * d6 + d7, 0x1_0000), d0, 0x100);
  }

  lemma PairLane(e: nat, e': nat, hi: nat, mhi: nat)
    requires e < 100 && e' < 100
    ensures And(Lanes2(e + 0x100 * e', hi, 0x1_0000), Lanes2(0xFF, mhi, 0x1_0000)) == Lanes2(e, And(hi, mhi), 0x1_0000)
  {
    Powers();
    MaskLane(e + 0x100 * e', hi, 0xFF, mhi, 16, 8, 0x1_0000, 0x100);
    DivModUnique(e + 0x100 * e', e', e, 0x100);
  }

  lemma PairMask(e0: nat, e1: nat, e2: nat, e3: nat, e4: nat, e5: nat, e6: nat)
    requires e0 < 100 && e1 < 100 && e2 < 100 && e3 < 100 && e4 < 100 && e5 < 100 && e6 < 100
    ensures And(Lanes4(e0 + 0x100 * e1, e2 + 0x100 * e3, e4 + 0x100 * e5, e6, 0x1_0000), 0x00FF_00FF_00FF_00FF)
         == Lanes4(e0, e2, e4, e6, 0x1_0000)
  {
    assert 0x00FF_00FF_00FF_00FF == Lanes4(0xFF, 0xFF, 0xFF, 0xFF, 0x1_0000);
    Powers();
    AndMask(e6, 8);
    DivModUnique(e6, 0, e6, 0x100);
    hide And, Lanes2, Pow2;
    PairLane(e0, e1, Lanes2(e2 + 0x100 * e3, Lanes2(e4 + 0x100 * e5, e6, 0x1_0000), 0x1_0000),
             Lanes2(0xFF, Lanes2(0xFF, 0xFF, 0x1_0000), 0x1_0000));
    PairLane(e2, e3, Lanes2(e4 + 0x100 * e5, e6, 0x1_0000), Lanes2(0xFF, 0xFF, 0x1_0000));
    PairLane(e4, e5, e6, 0xFF);
  }

  /** Multiplying by 100 * 65536 + 1 leaves the four-digit numbers. */
  lemma FourStep(e0: nat, e2: nat, e4: nat, e6: nat)
    requires e0 < 100 && e2 < 100 && e4 < 100 && e6 < 100
    ensures Lanes4(e0, e2, e4, e6, 0x1_0000) * 6553601 % BASE / 0x1_0000
         == Lanes2((100 * e0 + e2) + 0x1_0000 * (100 * e2 + e4), 100 * e4 + e6, 0x1_0000_0000)
  {
    ShiftDown(Lanes4(e0, e2, e4, e6, 0x1_0000) * 6553601, 100 * e6,
              Lanes2((100 * e0 + e2) + 0x1_0000 * (100 * e2 + e4), 100 * e4 + e6, 0x1_0000_0000), e0, 0x1_0000);
  }

  lemma FourMask(f0: nat, f1: nat, f2: nat)
    requires f0 < 10000 && f1 < 10000 && f2 < 10000
    ensures And(Lanes2(f0 + 0x1_0000 * f1, f2, 0x1_0000_0000), 0x0000_FFFF_0000_FFFF) == Lanes2(f0, f2, 0x1_0000_0000)
  {
    assert 0x0000_FFFF_0000_FFFF == Lanes2(0xFFFF, 0xFFFF, 0x1_0000_0000);
    Powers();
    AndMask(f2, 16);
    DivModUnique(f2, 0, f2, 0x1_0000);
    hide And, Pow2;
    MaskLane(f0 + 0x1_0000 * f1, f2, 0xFFFF, 0xFFFF, 32, 16, 0x1_0000_0000, 0x1_0000);
    DivModUnique(f0 + 0x1_0000 * f1, f1, f0, 0x1_0000);
  }

  /** Multiplying by 10000 * 2^32 + 1 leaves the eight-digit number. */
  lemma EightStep(f0: nat, f2: nat)
    requires f0 < 10000 && f2 < 10000
    ensures Lanes2(f0, f2, 0x1_0000_0000) * 42949672960001 % BASE / 0x1_0000_0000 == 10000 * f0 + f2
  {
    ShiftDown(Lanes2(f0, f2, 0x1_0000_0000) * 42949672960001, 10000 * f2, 10000 * f0 + f2, f0, 0x1_0000_0000);
  }

  lemma PairsOf(d0: nat, d1: nat, d2: nat, d3: nat, d4: nat, d5: nat, d6: nat, d7: nat)
    requires d0 < 10 && d1 < 10 && d2 < 10 && d3 < 10 && d4 < 10 && d5 < 10 && d6 < 10 && d7 < 10
    ensures Pairs(Lanes8(48 + d0, 48 + d1, 48 + d2, 48 + d3, 48 + d4, 48 + d5, 48 + d6, 48 + d7, 0x100))
         == Lanes4((10 * d0 + d1) + 0x100 * (10 * d1 + d2), (10 * d2 + d3) + 0x100 * (10 * d3 + d4),
                   (10 * d4 + d5) + 0x100 * (10 * d5 + d6), 10 * d6 + d7, 0x1_0000)
  {
    DigitMask(d0, d1, d2, d3, d4, d5, d6, d7);
    PairStep(d0, d1, d2, d3, d4, d5, d6, d7);
    hide Lanes2, Lanes4, Lanes8, And;
  }

  lemma FoursOf(e0: nat, e1: nat, e2: nat, e3: nat, e4: nat, e5: nat, e6: nat)
    requires e0 < 100 && e1 < 100 && e2 < 100 && e3 < 100 && e4 < 100 && e5 < 100 && e6 < 100
    ensures Fours(Lanes4(e0 + 0x100 * e1, e2 + 0x100 * e3, e4 + 0x100 * e5, e6, 0x1_0000))
         == Lanes2((100 * e0 + e2) + 0x1_0000 * (100 * e2 + e4), 100 * e4 + e6, 0x1_0000_0000)
  {
    PairMask(e0, e1, e2, e3, e4, e5, e6);
    FourStep(e0, e2, e4, e6);
    hide Lanes2, Lanes4, And;
  }

  lemma EightOf(f0: nat, f1: nat, f2: nat)
    requires f0 < 10000 && f1 < 10000 && f2 < 10000
    ensures Eight(Lanes2(f0 + 0x1_0000 * f1, f2, 0x1_0000_0000)) == 10000 * f0 + f2
  {
    FourMask(f0, f1, f2);
    EightStep(f0, f2);
    hide Lanes2, And;
  }

  /** The three steps on the bytes of any eight digits. */
  lemma EightDigitsOf(d0: nat, d1: nat, d2: nat, d3: nat, d4: nat, d5: nat, d6: nat, d7: nat)
    requires d0 < 10 && d1 < 10 && d2 < 10 && d3 < 10 && d4 < 10 && d5 < 10 && d6 < 10 && d7 < 10
    ensures EightDigits(Lanes8(48 + d0, 48 + d1, 48 + d2, 48 + d3, 48 + d4, 48 + d5, 48 + d6, 48 + d7, 0x100))
         == 10000 * (1000 * d0 + 100 * d1 + 10 * d2 + d3) + (1000 * d4 + 100 * d5 + 10 * d6 + d7)
  {
    hide Lanes2, Lanes4, Lanes8, Pairs, Fours, Eight;
    var e0, e2, e4, e6 := 10 * d0 + d1, 10 * d2 + d3, 10 * d4 + d5, 10 * d6 + d7;
    PairsOf(d0, d1, d2, d3, d4, d5, d6, d7);
    FoursOf(e0, 10 * d1 + d2, e2, 10 * d3 + d4, e4, 10 * d5 + d6, e6);
    EightOf(100 * e0 + e2, 100 * e2 + e4, 100 * e4 + e6);
  }

  /** The number of the four digits at j. */
  function FourAt(text: seq<byte>, j: nat): nat
    requires j + 4 <= |text|
  {
    var a, b := DigitOf(text[j], 10), DigitOf(text[j + 1], 10);
    var c, d := DigitOf(text[j + 2], 10), DigitOf(text[j + 3], 10);
    1000 * a + 100 * b + 10 * c + d
  }

  lemma NumberOfFour(text: seq<byte>, i: nat, j: nat)
    requires i <= j && j + 4 <= |text|
    ensures Number(text, i, j + 4, 10) == 10000 * Number(text, i, j, 10) + FourAt(text, j)
  {
    hide DigitOf;
    assert Number(text, i, j + 1, 10) == Number(text, i, j, 10) * 10 + DigitOf(text[j], 10);
    assert Number(text, i, j + 2, 10) == Number(text, i, j + 1, 10) * 10 + DigitOf(text[j + 1], 10);
    assert Number(text, i, j + 3, 10) == Number(text, i, j + 2, 10) * 10 + DigitOf(text[j + 2], 10);
  }

  lemma NumberOfEight(text: seq<byte>, p: nat)
    requires p + 8 <= |text|
    ensures Number(text, p, p + 8, 10) == 10000 * FourAt(text, p) + FourAt(text, p + 4)
  {
    assert Number(text, p, p, 10) == 0;
    hide Number, DigitOf, FourAt;
    NumberOfFour(text, p, p);
    NumberOfFour(text, p, p + 4);
  }

  lemma DigitByte(c: byte)
    requires IsDigit(c, 10)
    ensures c == 48 + DigitOf(c, 10) && DigitOf(c, 10) < 10
  {
  }

  /** Eight digit bytes become the number they write. */
  lemma EightDigitsCorrect(text: seq<byte>, p: nat)
    requires p + 8 <= |text| && forall i :: p <= i < p + 8 ==> IsDigit(text[i], 10)
    ensures EightDigits(Load64Le(text, p)) == Number(text, p, p + 8, 10)
  {
    hide Number, DigitOf, Lanes8, EightDigits, IsDigit;
    NumberOfEight(text, p);
    DigitByte(text[p]); DigitByte(text[p + 1]); DigitByte(text[p + 2]); DigitByte(text[p + 3]);
    DigitByte(text[p + 4]); DigitByte(text[p + 5]); DigitByte(text[p + 6]); DigitByte(text[p + 7]);
    EightDigitsOf(DigitOf(text[p], 10), DigitOf(text[p + 1], 10),
                  DigitOf(text[p + 2], 10), DigitOf(text[p + 3], 10),
                  DigitOf(text[p + 4], 10), DigitOf(text[p + 5], 10),
                  DigitOf(text[p + 6], 10), DigitOf(text[p + 7], 10));
  }
}
