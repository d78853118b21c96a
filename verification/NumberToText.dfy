/** fio_ltoa: signed numbers written in any base. */
module NumberToText {
  import opened Bytes
  import opened Words
  import opened Numerals
  import opened Parsers
  import opened Printers
  import opened TextToNumber

  /** The 64 bits of a signed number. */
  function AsUnsigned(num: int): (n: nat)
    requires INT_MIN <= num <= INT_MAX
    ensures n < BASE && AsSigned(n) == num
  {
    if num < 0 then num + BASE else num
  }

  function Magnitude(num: int): nat {
    if num < 0 then -num else num
  }

  /** Base 1 stands for 2, base 0 for 10. */
  function EffectiveBase(base: nat): (b: nat)
    ensures b >= 2
  {
    if base == 0 then 10 else if base == 1 then 2 else base
  }

  /** Bases 2 and 16 write the 64 bits, the others a sign and the magnitude. */
  predicate WritesBits(base: nat) {
    EffectiveBase(base) == 2 || base == 16
  }

  /** The digits that fio_ltoa writes, after the sign if there is one. */
  function LtoaDigits(num: int, base: nat): (ds: seq<nat>)
    requires INT_MIN <= num <= INT_MAX
  {
    var n := AsUnsigned(num);
    if EffectiveBase(base) == 2 then Fixed(n, 2, BinaryCount(n))
    else if base == 16 then Fixed(n, 16, Digits16u(n))
    else Digits(Magnitude(num), EffectiveBase(base))
  }

  /** The text that it writes: no prefix in any base. */
  function LtoaText(num: int, base: nat): (t: seq<byte>)
    requires INT_MIN <= num <= INT_MAX
  {
    (if num < 0 && !WritesBits(base) then [MINUS] else []) + Chars(LtoaDigits(num, base))
  }

  /** Which fits the 68 bytes that the caller provides, with its NUL. */
  lemma TextFits(num: int, base: nat)
    requires INT_MIN <= num <= INT_MAX
    ensures |LtoaText(num, base)| <= 65 && |Digits(Magnitude(num), EffectiveBase(base))| <= 64
    ensures BinaryCount(AsUnsigned(num)) <= 64
  {
    WordPower();
    AtMost64(AsUnsigned(num), 2, 64);
    AtMost64(Magnitude(num), EffectiveBase(base), 64);
  }

  lemma SignBefore(was: seq<byte>, at: nat, t: seq<byte>)
    requires at + |t| + 1 < |was|
    ensures Patched(was[at := MINUS], at + 1, t) == Patched(was, at, [MINUS] + t)
  {
  }

  /** The counter and the printer of a base. */
  method PrintMagnitude(dest: array<byte>, p: nat, n: nat, base: nat) returns (digits: nat)
    requires n < BASE && base <= 36 && !WritesBits(base)
    requires p + |Digits(n, EffectiveBase(base))| < dest.Length
    modifies dest
    ensures digits == |Digits(n, EffectiveBase(base))|
    ensures dest[..] == Patched(old(dest[..]), p, Text(n, EffectiveBase(base)) + [0])
  {
    hide Digits, Chars, Patched;
    if base == 8 {
      digits := Digits8u(n);
      Ltoa8u(dest, p, n, digits);
    } else if base == 0 || base == 10 {
      digits := Digits10u(n);
      Ltoa10u(dest, p, n, digits);
    } else {
      digits := DigitsXbase(n, base);
      LtoaXbase(dest, p, n, digits, base);
    }
  }

  lemma SignedText(num: int, base: nat)
    requires INT_MIN <= num <= INT_MAX && !WritesBits(base)
    ensures LtoaText(num, base)
         == (if num < 0 then [MINUS] else []) + Text(Magnitude(num), EffectiveBase(base))
    ensures |Text(Magnitude(num), EffectiveBase(base))| == |Digits(Magnitude(num), EffectiveBase(base))|
  {
    hide Digits, Chars;
  }

  /** The cases of the switch that write a sign and the magnitude. */
  method LtoaSigned(dest: array<byte>, at: nat, num: int, base: nat) returns (len: nat)
    requires INT_MIN <= num <= INT_MAX && base <= 36 && !WritesBits(base) && at + 68 <= dest.Length
    modifies dest
    ensures len == |LtoaText(num, base)| && at + len < dest.Length
    ensures dest[..] == Patched(old(dest[..]), at, LtoaText(num, base) + [0])
  {
    hide Digits, Chars, LtoaText, Text, WritesBits, EffectiveBase, Patched;
    TextFits(num, base);
    SignedText(num, base);
    ghost var was, t := dest[..], Text(Magnitude(num), EffectiveBase(base));
    var n, p := AsUnsigned(num), at;
    len := 0;
    if num < 0 {
      dest[p] := MINUS;
      p := p + 1;
      n := BASE - n;
      len := len + 1;
      SignBefore(was, at, t + [0]);
      assert [MINUS] + (t + [0]) == [MINUS] + t + [0];
    } else {
      assert [] + t == t;
    }
    assert n == Magnitude(num);
    var digits := PrintMagnitude(dest, p, n, base);
    len := len + digits;
  }

  lemma BitsText(num: int, base: nat)
    requires INT_MIN <= num <= INT_MAX && WritesBits(base)
    ensures LtoaText(num, base) == Chars(LtoaDigits(num, base))
    ensures EffectiveBase(base) == 2
        ==> LtoaDigits(num, base) == Fixed(AsUnsigned(num), 2, BinaryCount(AsUnsigned(num)))
    ensures base == 16 ==> LtoaDigits(num, base) == Fixed(AsUnsigned(num), 16, Digits16u(AsUnsigned(num)))
  {
  }

  /** The cases of the switch that write the 64 bits. */
  method LtoaBits(dest: array<byte>, at: nat, num: int, base: nat) returns (len: nat)
    requires INT_MIN <= num <= INT_MAX && WritesBits(base) && at + 68 <= dest.Length
    modifies dest
    ensures len == |LtoaText(num, base)| && at + len < dest.Length
    ensures dest[..] == Patched(old(dest[..]), at, LtoaText(num, base) + [0])
  {
    hide Fixed, Chars, LtoaText, LtoaDigits, Patched, BinaryCount, Digits16u;
    TextFits(num, base);
    BitsText(num, base);
    var n := AsUnsigned(num);
    if base == 1 || base == 2 {
      len := DigitsBin(n);
      LtoaBin(dest, at, n, len);
    } else {
      len := Digits16u(n);
      Ltoa16u(dest, at, n, len);
    }
  }

  /** fio_ltoa into a buffer of at least 68 bytes. */
  method Ltoa(dest: array<byte>, at: nat, num: int, base: nat) returns (len: nat)
    requires INT_MIN <= num <= INT_MAX && base < 256 && at + 68 <= dest.Length
    modifies dest
    ensures base > 36 ==> len == 0 && dest[..] == old(dest[..])
    ensures base <= 36 ==> len == |LtoaText(num, base)| && at + len < dest.Length
    ensures base <= 36 ==> dest[..] == Patched(old(dest[..]), at, LtoaText(num, base) + [0])
  {
    hide LtoaText, Patched;
    if base == 1 || base == 2 || base == 16 {
      len := LtoaBits(dest, at, num, base);
    } else if base > 36 {
      len := 0;
    } else {
      len := LtoaSigned(dest, at, num, base);
    }
  }
}
