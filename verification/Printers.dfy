/** Writing unsigned numbers: the digit counters, and the printers that fill a
    buffer from its last byte backwards. */
module Printers {
  import opened Bytes
  import opened Words
  import opened Modular
  import opened Bitwise
  import opened NumberTheory
  import opened Numerals
  import opened Swar
  import opened SwarBits

  // ---- Digit counters ----

  lemma DivDiv(n: nat, a: nat, b: nat, c: nat)
    requires a >= 1 && b >= 1 && c == a * b
    ensures c >= 1 && n / a / b == n / c
  {
    var q, r := n / a / b, n / a % b;
    DivSplit(n, a);
    DivSplit(n / a, b);
    Remainders(r, n % a, a, b);
    assert n == (q * b + r) * a + n % a;
    assert q * b * a == q * c;
    assert n == q * c + (r * a + n % a);
    DivModUnique(n, q, r * a + n % a, c);
  }

  lemma Remainders(r: nat, s: nat, a: nat, b: nat)
    requires r < b && s < a
    ensures r * a + s < a * b
  {
    var d := b - (r + 1);
    assert b * a == (r + 1 + d) * a == r * a + a + d * a;
    MulNonNegative(d, a);
  }

  lemma AtLeast(n: nat, base: nat, p: nat)
    requires base >= 2 && p >= 1 && n >= base * p
    ensures n >= base && n / base >= p
  {
    assert base * p == base + base * (p - 1) && base * (p - 1) >= 0;
    DivSplit(n, base);
    assert (p - n / base) * base == p * base - n / base * base;
    BelowOne(p - n / base, base);
  }

  lemma OneDigit(n: nat, base: nat, p: nat, c: nat)
    requires base >= 2 && p >= 1 && c == base * p && n >= c
    ensures c >= 1 && n >= base && n / base >= p && n / base / p == n / c
  {
    AtLeast(n, base, p);
    DivDiv(n, base, p, c);
  }

  lemma DigitsStep(n: nat, base: nat)
    requires base >= 2
    ensures |Digits(n, base)| == if n < base then 1 else 1 + |Digits(n / base, base)|
  {
  }

  /** A number of at least k + 1 digits: k of them, and those of the rest. */
  lemma {:induction false} DigitsSplit(n: nat, base: nat, k: nat)
    requires base >= 2 && n >= Power(base, k)
    ensures Power(base, k) >= 1
    ensures |Digits(n, base)| == k + |Digits(n / Power(base, k), base)|
    decreases k
  {
    hide *;
    PowerUnfold(base, k);
    if k > 0 {
      PowerUnfold(base, k - 1);
      OneDigit(n, base, Power(base, k - 1), Power(base, k));
      DigitsStep(n, base);
      DigitsSplit(n / base, base, k - 1);
    }
  }

  lemma DigitCount(n: nat, base: nat, k: nat)
    requires base >= 2 && (k == 0 || n >= Power(base, k)) && n < Power(base, k + 1)
    ensures |Digits(n, base)| == k + 1
  {
    hide *;
    PowerUnfold(base, k + 1);
    PowerUnfold(base, k);
    var p := Power(base, k);
    if k > 0 {
      DigitsSplit(n, base, k);
      DivSplit(n, p);
      Below(n / p, base, p, n % p);
    }
    DigitsStep(n / p, base);
  }

  lemma PowersOf(base: nat)
    ensures Power(base, 0) == 1 && Power(base, 1) == base && Power(base, 2) == base * base
    ensures Power(base, 3) == base * base * base && Power(base, 4) == base * base * base * base
  {
    assert Power(base, 1) == base * Power(base, 0);
    assert Power(base, 2) == base * Power(base, 1);
    assert Power(base, 3) == base * Power(base, 2);
    assert Power(base, 4) == base * Power(base, 3);
  }

  /** fio_digits10u */
  method Digits10u(n: nat) returns (r: nat)
    requires n < BASE
    ensures r == |Digits(n, 10)|
  {
    var i := n;
    r := 1;
    PowersOf(10);
    while true
      invariant |Digits(n, 10)| == r - 1 + |Digits(i, 10)|
      decreases i
    {
      hide Digits, Power;
      if i < 10 { DigitCount(i, 10, 0); return; }
      if i < 100 { DigitCount(i, 10, 1); return r + 1; }
      if i < 1000 { DigitCount(i, 10, 2); return r + 2; }
      if i < 10000 { DigitCount(i, 10, 3); return r + 3; }
      DigitsSplit(i, 10, 4);
      r := r + 4;
      i := i / 10000;
    }
  }

  lemma PowersOfEight()
    ensures Power(8, 5) == 32768 && Power(8, 6) == 262144 && Power(8, 7) == 2097152 && Power(8, 8) == 16777216
  {
    PowersOf(8);
    assert Power(8, 5) == 8 * Power(8, 4);
    assert Power(8, 6) == 8 * Power(8, 5);
    assert Power(8, 7) == 8 * Power(8, 6);
    assert Power(8, 8) == 8 * Power(8, 7);
  }

  /** fio_digits8u */
  method Digits8u(n: nat) returns (r: nat)
    requires n < BASE
    ensures r == |Digits(n, 8)|
  {
    var i := n;
    r := 1;
    PowersOf(8);
    PowersOfEight();
    while true
      invariant |Digits(n, 8)| == r - 1 + |Digits(i, 8)|
      decreases i
    {
      hide Digits, Power;
      if i < 8 { DigitCount(i, 8, 0); return; }
      if i < 64 { DigitCount(i, 8, 1); return r + 1; }
      if i < 512 { DigitCount(i, 8, 2); return r + 2; }
      if i < 4096 { DigitCount(i, 8, 3); return r + 3; }
      if i < 32768 { DigitCount(i, 8, 4); return r + 4; }
      if i < 262144 { DigitCount(i, 8, 5); return r + 5; }
      if i < 2097152 { DigitCount(i, 8, 6); return r + 6; }
      if i < 16777216 { DigitCount(i, 8, 7); return r + 7; }
      DigitsSplit(i, 8, 8);
      r := r + 8;
      i := i / 16777216;
    }
  }

  /** fio_digits_xbase */
  method DigitsXbase(n: nat, base: nat) returns (r: nat)
    requires n < BASE && 2 <= base < 65
    ensures r == |Digits(n, base)|
  {
    var base2 := base * base;
    var base3 := base2 * base;
    var base4 := base3 * base;
    var i: nat := n;
    r := 1;
    PowersOf(base);
    FourthPower(base);
    while true
      invariant |Digits(n, base)| == r - 1 + |Digits(i, base)|
      decreases i
    {
      hide Digits, Power;
      if i < base { DigitCount(i, base, 0); return; }
      if i < base2 { DigitCount(i, base, 1); return r + 1; }
      if i < base3 { DigitCount(i, base, 2); return r + 2; }
      if i < base4 { DigitCount(i, base, 3); return r + 3; }
      DigitsSplit(i, base, 4);
      r := r + 4;
      Shrinks(i, base4);
      i := i / base4;
    }
  }

  lemma FourthPower(base: nat)
    requires base >= 2
    ensures base * base >= 4 && base * base * base >= 8 && base * base * base * base >= 16
  {
    var p, q := base * base, base * base * base;
    assert p == 2 * base + (base - 2) * base && (base - 2) * base >= 0;
    assert q == p * 2 + p * (base - 2) && p * (base - 2) >= 0;
    assert q * base == q * 2 + q * (base - 2) && q * (base - 2) >= 0;
  }

  /** The index of the highest set bit. */
  function MsbIndex(i: nat): (m: nat)
    requires i > 0
    ensures Pow2(m) <= i < 2 * Pow2(m)
  {
    if i == 1 then 0 else 1 + MsbIndex(i / 2)
  }

  lemma {:induction false} BitLength(i: nat)
    requires i > 0
    ensures |Digits(i, 2)| == MsbIndex(i) + 1
  {
    if i > 1 {
      BitLength(i / 2);
    }
  }

  /** Zero is written as one binary digit, other numbers as an even count. */
  function BinaryCount(n: nat): (r: nat)
    ensures |Digits(n, 2)| <= r <= |Digits(n, 2)| + 1 && (n > 0 ==> r % 2 == 0)
  {
    if n == 0 then 1 else |Digits(n, 2)| + |Digits(n, 2)| % 2
  }

  /** fio_digits_bin */
  method DigitsBin(n: nat) returns (r: nat)
    requires n < BASE
    ensures r == BinaryCount(n)
  {
    r := 1;
    if n == 0 {
      return;
    }
    BitLength(n);
    r := MsbIndex(n) + 1;
    r := r + r % 2;
  }

  lemma PowersOfSixteen()
    ensures Power(16, 2) == 0x100 && Power(16, 4) == 0x1_0000 && Power(16, 6) == 0x100_0000
    ensures Power(16, 8) == 0x1_0000_0000
    ensures Power(16, 10) == 0x100_0000_0000 && Power(16, 12) == 0x1_0000_0000_0000
    ensures Power(16, 14) == 0x100_0000_0000_0000 && Power(16, 16) == BASE
  {
    SquarePower(0); SquarePower(2); SquarePower(4); SquarePower(6);
    SquarePower(8); SquarePower(10); SquarePower(12); SquarePower(14);
  }

  lemma SquarePower(k: nat)
    ensures k == 0 ==> Power(16, k) == 1
    ensures Power(16, k + 2) == 0x100 * Power(16, k)
  {
    assert Power(16, k + 2) == 16 * Power(16, k + 1);
  }

  /** fio_digits16u: the least even number of hexadecimal digits, two or more. */
  function Digits16u(n: nat): (r: nat)
    requires n < BASE
    ensures r % 2 == 0 && 2 <= r <= 16
    ensures n < Power(16, r) && (r > 2 ==> n >= Power(16, r - 2))
  {
    PowersOfSixteen();
    if n < 0x100 then 2
    else if n < 0x1_0000 then 4
    else if n < 0x100_0000 then 6
    else if n < 0x1_0000_0000 then 8
    else if n < 0x100_0000_0000 then 10
    else if n < 0x1_0000_0000_0000 then 12
    else if n < 0x100_0000_0000_0000 then 14
    else 16
  }

  /** Enough digits for the number. */
  lemma {:induction false} DigitsBound(n: nat, base: nat)
    requires base >= 2
    ensures n < Power(base, |Digits(n, base)|)
  {
    hide *;
    DigitsStep(n, base);
    var k := |Digits(n, base)|;
    PowerUnfold(base, k);
    PowerUnfold(base, k - 1);
    if n >= base {
      Shrinks(n, base);
      DigitsBound(n / base, base);
      DivSplit(n, base);
      Remainders(n / base, n % base, base, Power(base, k - 1));
    } else {
      PowerUnfold(base, 0);
    }
  }

  /** A 64 bit number has at most 64 digits in any base. */
  lemma {:induction false} AtMost64(n: nat, base: nat, k: nat)
    requires base >= 2 && k >= 1 && n < Pow2(k)
    ensures |Digits(n, base)| <= k
    decreases k
  {
    assert Pow2(k) == 2 * Pow2(k - 1) && Pow2(0) == 1;
    if n >= base {
      HalfOrLess(n, base);
      AtMost64(n / base, base, k - 1);
    }
  }

  lemma HalfOrLess(n: nat, base: nat)
    requires base >= 2
    ensures n / base <= n / 2
  {
    var q := n / base;
    DivSplit(n, base);
    MulLe(q, 2, base);
  }

  // ---- Printers ----

  /** was, with t written at position i. */
  function Patched(was: seq<byte>, i: nat, t: seq<byte>): seq<byte>
    requires i + |t| <= |was|
  {
    was[..i] + t + was[i + |t|..]
  }

  lemma PatchFront(was: seq<byte>, i: nat, t: seq<byte>, c: byte)
    requires 1 <= i && i + |t| <= |was|
    ensures Patched(was, i, t)[i - 1 := c] == Patched(was, i - 1, [c] + t)
  {
  }

  lemma CharsPrepend(d: nat, ds: seq<nat>)
    ensures Chars([d] + ds) == [CharOf(d)] + Chars(ds)
  {
  }

  /** The lowest k digits of n and a NUL, written to end at position e. */
  ghost predicate Tail(now: seq<byte>, was: seq<byte>, e: nat, n: nat, base: nat, k: nat) {
    base >= 1 && k <= e < |was| && now == Patched(was, e - k, Chars(Fixed(n, base, k)) + [0])
  }

  lemma TailStart(was: seq<byte>, e: nat, n: nat, base: nat)
    requires base >= 1 && e < |was|
    ensures Tail(was[e := 0], was, e, n, base, 0) && Shift(n, base, 0) == n
  {
  }

  lemma TailGrows(now: seq<byte>, was: seq<byte>, e: nat, n: nat, base: nat, k: nat, c: byte)
    requires Tail(now, was, e, n, base, k) && k < e && c == CharOf(Shift(n, base, k) % base)
    ensures |now| == |was| && Tail(now[e - k - 1 := c], was, e, n, base, k + 1)
  {
    var d := Shift(n, base, k) % base;
    FixedPrepend(n, base, k);
    CharsPrepend(d, Fixed(n, base, k));
    PatchFront(was, e - k, Chars(Fixed(n, base, k)) + [0], c);
    assert [c] + (Chars(Fixed(n, base, k)) + [0]) == Chars(Fixed(n, base, k + 1)) + [0];
  }

  /** All digits of the number are written. */
  lemma TailDone(now: seq<byte>, was: seq<byte>, e: nat, n: nat, base: nat)
    requires base >= 2 && Tail(now, was, e, n, base, |Digits(n, base)|)
    ensures now == Patched(was, e - |Digits(n, base)|, Text(n, base) + [0])
  {
    DigitsAreFixed(n, base);
  }

  /** fio_ltoa10u, for at least as many digits as the number has. */
  method Ltoa10u(dest: array<byte>, at: nat, n: nat, digits: nat)
    requires n < BASE && |Digits(n, 10)| <= digits && at + digits < dest.Length
    modifies dest
    ensures dest[..] == Patched(old(dest[..]), at + digits - |Digits(n, 10)|, Text(n, 10) + [0])
  {
    hide Digits, Fixed, Shift, Tail, Patched, CharOf, And;
    ghost var was := dest[..];
    var i, p := n, at + digits;
    dest[p] := 0;
    TailStart(was, p, n, 10);
    p := p - 1;
    ghost var k := 0;
    while i > 9
      invariant i == Shift(n, 10, k) && k + |Digits(i, 10)| == |Digits(n, 10)|
      invariant p == at + digits - 1 - k && Tail(dest[..], was, at + digits, n, 10, k)
      decreases i
    {
      ghost var now := dest[..];
      var nxt := i / 10;
      DigitsStep(i, 10);
      ShiftOne(n, 10, k);
      DigitChar(i % 10);
      TailGrows(now, was, at + digits, n, 10, k, 48 + (i - nxt * 10));
      dest[p] := 48 + (i - nxt * 10);
      p := p - 1;
      i := nxt;
      k := k + 1;
    }
    DigitsStep(i, 10);
    DigitChar(i);
    TailGrows(dest[..], was, at + digits, n, 10, k, 48 + i);
    dest[p] := 48 + i;
    TailDone(dest[..], was, at + digits, n, 10);
  }

  lemma DigitChar(d: nat)
    requires d < 10
    ensures CharOf(d) == 48 + d && d % 10 == d
  {
  }

  /** fio_ltoa8u */
  method Ltoa8u(dest: array<byte>, at: nat, n: nat, digits: nat)
    requires n < BASE && |Digits(n, 8)| <= digits && at + digits < dest.Length
    modifies dest
    ensures dest[..] == Patched(old(dest[..]), at + digits - |Digits(n, 8)|, Text(n, 8) + [0])
  {
    hide Digits, Fixed, Shift, Tail, Patched, CharOf, And;
    ghost var was := dest[..];
    var i, p := n, at + digits;
    dest[p] := 0;
    TailStart(was, p, n, 8);
    p := p - 1;
    ghost var k := 0;
    while i > 7
      invariant i == Shift(n, 8, k) && k + |Digits(i, 8)| == |Digits(n, 8)|
      invariant p == at + digits - 1 - k && Tail(dest[..], was, at + digits, n, 8, k)
      decreases i
    {
      ghost var now := dest[..];
      OctalDigit(i);
      DigitsStep(i, 8);
      ShiftOne(n, 8, k);
      DigitChar(i % 8);
      TailGrows(now, was, at + digits, n, 8, k, 48 + And(i, 7));
      dest[p] := 48 + And(i, 7);
      p := p - 1;
      i := i / 8;
      k := k + 1;
    }
    DigitsStep(i, 8);
    DigitChar(i);
    TailGrows(dest[..], was, at + digits, n, 8, k, 48 + i);
    dest[p] := 48 + i;
    TailDone(dest[..], was, at + digits, n, 8);
  }

  lemma OctalDigit(i: nat)
    ensures And(i, 7) == i % 8
  {
    SmallPowers();
    AndMask(i, 3);
  }

  /** fio_ltoa_xbase */
  method LtoaXbase(dest: array<byte>, at: nat, n: nat, digits: nat, base: nat)
    requires n < BASE && 2 <= base <= 36 && |Digits(n, base)| <= digits && at + digits < dest.Length
    modifies dest
    ensures dest[..] == Patched(old(dest[..]), at + digits - |Digits(n, base)|, Text(n, base) + [0])
  {
    hide Digits, Fixed, Shift, Tail, Patched, CharOf, And;
    ghost var was := dest[..];
    var i: nat, p := n, at + digits;
    dest[p] := 0;
    TailStart(was, p, n, base);
    p := p - 1;
    ghost var k := 0;
    while i >= base
      invariant i == Shift(n, base, k) && k + |Digits(i, base)| == |Digits(n, base)|
      invariant p == at + digits - 1 - k && Tail(dest[..], was, at + digits, n, base, k)
      decreases i
    {
      ghost var now := dest[..];
      var nxt := i / base;
      DigitsStep(i, base);
      ShiftOne(n, base, k);
      DivSplit(i, base);
      Shrinks(i, base);
      TailGrows(now, was, at + digits, n, base, k, CharOf(i - nxt * base));
      dest[p] := CharOf(i - nxt * base);
      p := p - 1;
      i := nxt;
      k := k + 1;
    }
    DigitsStep(i, base);
    DivModUnique(i, 0, i, base);
    TailGrows(dest[..], was, at + digits, n, base, k, CharOf(i));
    dest[p] := CharOf(i);
    TailDone(dest[..], was, at + digits, n, base);
  }

  lemma HexDigit(i: nat)
    ensures And(i, 15) == i % 16
  {
    SmallPowers();
    AndMask(i, 4);
  }

  lemma TailMeans(now: seq<byte>, was: seq<byte>, e: nat, n: nat, base: nat, k: nat)
    requires Tail(now, was, e, n, base, k)
    ensures now == Patched(was, e - k, Chars(Fixed(n, base, k)) + [0])
  {
  }

  /** fio_ltoa16u: exactly the given number of digits, made even. */
  method Ltoa16u(dest: array<byte>, at: nat, n: nat, digits: nat)
    requires n < BASE && at + digits + digits % 2 < dest.Length
    modifies dest
    ensures dest[..] == Patched(old(dest[..]), at, Chars(Fixed(n, 16, digits + digits % 2)) + [0])
  {
    hide Fixed, Tail, Patched, CharOf, And, Shift;
    ghost var was := dest[..];
    var i, count := n, digits + digits % 2;
    var p := at + count;
    ghost var e, pairs := p, count / 2;
    dest[p] := 0;
    TailStart(was, p, n, 16);
    p := p - 1;
    ghost var k := 0;
    while count > 0
      invariant count == 2 * (pairs - k) >= 0 && i == Shift(n, 16, 2 * k)
      invariant p == e - 1 - 2 * k && Tail(dest[..], was, e, n, 16, 2 * k)
    {
      count := count - 2;
      HexDigit(i);
      ShiftOne(n, 16, 2 * k);
      TailGrows(dest[..], was, e, n, 16, 2 * k, CharOf(And(i, 15)));
      dest[p] := CharOf(And(i, 15));
      p := p - 1;
      i := i / 16;
      HexDigit(i);
      ShiftOne(n, 16, 2 * k + 1);
      TailGrows(dest[..], was, e, n, 16, 2 * k + 1, CharOf(And(i, 15)));
      dest[p] := CharOf(And(i, 15));
      p := p - 1;
      i := i / 16;
      k := k + 1;
    }
    TailMeans(dest[..], was, e, n, 16, digits + digits % 2);
  }

  // ---- The binary printer ----

  /** Bit k of i. */
  function BitAt(i: nat, k: nat): (b: nat)
    ensures b < 2
  {
    Shift(i, 2, k) % 2
  }

  lemma {:induction false} ShiftShift(n: nat, base: nat, j: nat, k: nat)
    requires base >= 1
    ensures Shift(Shift(n, base, j), base, k) == Shift(n, base, j + k)
    decreases j
  {
    if j > 0 {
      ShiftShift(n / base, base, j - 1, k);
    }
  }

  /** The low byte is the number of the low eight bits. */
  lemma LowByte(i: nat)
    ensures And(i, 0xFF)
         == Bits8(BitAt(i, 0), BitAt(i, 1), BitAt(i, 2), BitAt(i, 3),
                  BitAt(i, 4), BitAt(i, 5), BitAt(i, 6), BitAt(i, 7))
    ensures Shift(i, 2, 8) == i / 0x100
  {
    Powers();
    AndMask(i, 8);
    assert Shift(i, 2, 0) == i;
    hide And, Shift, Pow2;
    ShiftOne(i, 2, 0); ShiftOne(i, 2, 1); ShiftOne(i, 2, 2); ShiftOne(i, 2, 3);
    ShiftOne(i, 2, 4); ShiftOne(i, 2, 5); ShiftOne(i, 2, 6); ShiftOne(i, 2, 7);
    DivModUnique(i, Shift(i, 2, 8),
                 Bits8(BitAt(i, 0), BitAt(i, 1), BitAt(i, 2), BitAt(i, 3),
                       BitAt(i, 4), BitAt(i, 5), BitAt(i, 6), BitAt(i, 7)), 0x100);
  }

  lemma ShiftLane(a: nat, hi: nat, k: nat)
    requires a < 0x100
    ensures Lanes2(a, hi, 0x100) % 0x100 == a && Shift(Lanes2(a, hi, 0x100), 0x100, k + 1) == Shift(hi, 0x100, k)
  {
    DivModUnique(Lanes2(a, hi, 0x100), hi, a, 0x100);
  }

  /** Byte k of a word, counted from the lowest one. */
  function ByteAt(w: nat, k: nat): (b: byte) {
    Shift(w, 0x100, k) % 0x100
  }

  lemma LaneAt4(a: nat, b: nat, c: nat, d: nat)
    requires a < 0x100 && b < 0x100 && c < 0x100 && d < 0x100
    ensures ByteAt(Lanes4(a, b, c, d, 0x100), 0) == a && ByteAt(Lanes4(a, b, c, d, 0x100), 1) == b
    ensures ByteAt(Lanes4(a, b, c, d, 0x100), 2) == c && ByteAt(Lanes4(a, b, c, d, 0x100), 3) == d
  {
    assert Shift(d, 0x100, 0) == d;
    hide Lanes2;
    var l2 := Lanes2(c, d, 0x100);
    var l1 := Lanes2(b, l2, 0x100);
    ShiftLane(a, l1, 0); ShiftLane(a, l1, 1); ShiftLane(a, l1, 2);
    ShiftLane(b, l2, 0); ShiftLane(b, l2, 1);
    ShiftLane(c, d, 0);
  }

  /** The bytes of a word made of eight byte lanes. */
  lemma LaneAt8(a: nat, b: nat, c: nat, d: nat, e: nat, f: nat, g: nat, h: nat)
    requires a < 0x100 && b < 0x100 && c < 0x100 && d < 0x100 && e < 0x100 && f < 0x100 && g < 0x100 && h < 0x100
    ensures var w := Lanes8(a, b, c, d, e, f, g, h, 0x100);
      && ByteAt(w, 0) == a && ByteAt(w, 1) == b && ByteAt(w, 2) == c && ByteAt(w, 3) == d
      && ByteAt(w, 4) == e && ByteAt(w, 5) == f && ByteAt(w, 6) == g && ByteAt(w, 7) == h
  {
    LaneAt4(e, f, g, h);
    hide Lanes2, Lanes4;
    var l4 := Lanes4(e, f, g, h, 0x100);
    var l3 := Lanes2(d, l4, 0x100);
    var l2 := Lanes2(c, l3, 0x100);
    var l1 := Lanes2(b, l2, 0x100);
    ShiftLane(a, l1, 0); ShiftLane(a, l1, 1); ShiftLane(a, l1, 2); ShiftLane(a, l1, 3);
    ShiftLane(a, l1, 4); ShiftLane(a, l1, 5); ShiftLane(a, l1, 6);
    ShiftLane(b, l2, 0); ShiftLane(b, l2, 1); ShiftLane(b, l2, 2); ShiftLane(b, l2, 3);
    ShiftLane(b, l2, 4); ShiftLane(b, l2, 5);
    ShiftLane(c, l3, 0); ShiftLane(c, l3, 1); ShiftLane(c, l3, 2); ShiftLane(c, l3, 3); ShiftLane(c, l3, 4);
    ShiftLane(d, l4, 0); ShiftLane(d, l4, 1); ShiftLane(d, l4, 2); ShiftLane(d, l4, 3);
  }

  lemma SpreadEight(i: nat)
    ensures var w := Spread(And(i, 0xFF));
      && ByteAt(w, 0) == 48 + BitAt(i, 0) && ByteAt(w, 1) == 48 + BitAt(i, 1)
      && ByteAt(w, 2) == 48 + BitAt(i, 2) && ByteAt(w, 3) == 48 + BitAt(i, 3)
      && ByteAt(w, 4) == 48 + BitAt(i, 4) && ByteAt(w, 5) == 48 + BitAt(i, 5)
      && ByteAt(w, 6) == 48 + BitAt(i, 6) && ByteAt(w, 7) == 48 + BitAt(i, 7)
  {
    hide *;
    LowByte(i);
    var a, b, c, d := BitAt(i, 0), BitAt(i, 1), BitAt(i, 2), BitAt(i, 3);
    var e, f, g, h := BitAt(i, 4), BitAt(i, 5), BitAt(i, 6), BitAt(i, 7);
    SpreadOf(a, b, c, d, e, f, g, h);
    LaneAt8(48 + a, 48 + b, 48 + c, 48 + d, 48 + e, 48 + f, 48 + g, 48 + h);
  }

  /** Spreading writes the digit characters of the low eight bits, the highest
      one in the highest byte. */
  lemma SpreadBytes(i: nat, k: nat)
    requires k < 8
    ensures ByteAt(Spread(And(i, 0xFF)), k) == CharOf(BitAt(i, k))
  {
    hide *;
    SpreadEight(i);
    DigitChar(BitAt(i, k));
    if k == 0 {} else if k == 1 {} else if k == 2 {} else if k == 3 {}
    else if k == 4 {} else if k == 5 {} else if k == 6 {} else {}
  }

  /** fio_u2buf64_be: the eight bytes of a word, the highest one first. */
  method Store64Be(dest: array<byte>, at: nat, w: nat)
    requires at + 8 <= dest.Length
    modifies dest
    ensures forall k :: 0 <= k < 8 ==> dest[at + 7 - k] == ByteAt(w, k)
    ensures forall j :: 0 <= j < dest.Length && !(at <= j < at + 8) ==> dest[j] == old(dest[j])
  {
    var k := 0;
    while k < 8
      invariant 0 <= k <= 8
      invariant forall j :: 0 <= j < k ==> dest[at + 7 - j] == ByteAt(w, j)
      invariant forall j :: 0 <= j < dest.Length && !(at + 8 - k <= j < at + 8) ==> dest[j] == old(dest[j])
    {
      dest[at + 7 - k] := ByteAt(w, k);
      k := k + 1;
    }
  }

  /** Digit j of n stands in front of the j lower ones. */
  ghost predicate Stands(now: seq<byte>, e: nat, n: nat, base: nat, j: nat) {
    base >= 1 && j < e <= |now| && now[e - 1 - j] == CharOf(Shift(n, base, j) % base)
  }

  /** Several more digits written at once. */
  lemma {:induction false} TailGrowsBy(now: seq<byte>, now': seq<byte>, was: seq<byte>, e: nat, n: nat, base: nat,
                                       k: nat, m: nat)
    requires Tail(now, was, e, n, base, k) && k + m <= e < |now'| == |now|
    requires forall j :: k <= j < k + m ==> Stands(now', e, n, base, j)
    requires forall j :: 0 <= j < |now| && !(e - k - m <= j < e - k) ==> now'[j] == now[j]
    ensures Tail(now', was, e, n, base, k + m)
    decreases m
  {
    hide Tail, Fixed, CharOf, Shift;
    if m == 0 {
      assert now' == now;
    } else {
      var i := e - k - m;
      var mid := now'[i := now[i]];
      forall j | k <= j < k + (m - 1)
        ensures Stands(mid, e, n, base, j)
      {
        assert Stands(now', e, n, base, j);
      }
      TailGrowsBy(now, mid, was, e, n, base, k, m - 1);
      assert Stands(now', e, n, base, k + (m - 1));
      assert now' == mid[i := now'[i]];
      TailGrows(mid, was, e, n, base, k + m - 1, now'[i]);
    }
  }

  /** One step of the printer: eight bits spread to eight text bytes. */
  method WriteEight(dest: array<byte>, ghost was: seq<byte>, p: nat, i: nat, ghost e: nat, ghost n: nat, ghost k: nat)
    requires p + 8 + k == e < dest.Length && Tail(dest[..], was, e, n, 2, k) && i == Shift(n, 2, k)
    modifies dest
    ensures Tail(dest[..], was, e, n, 2, k + 8)
  {
    hide Tail, Shift, And, Spread, CharOf, ByteAt;
    ghost var now := dest[..];
    Store64Be(dest, p, Spread(And(i, 0xFF)));
    forall j | k <= j < k + 8
      ensures Stands(dest[..], e, n, 2, j)
    {
      assert dest[p + 7 - (j - k)] == ByteAt(Spread(And(i, 0xFF)), j - k);
      SpreadBytes(i, j - k);
      ShiftShift(n, 2, k, j - k);
    }
    TailGrowsBy(now, dest[..], was, e, n, 2, k, 8);
  }

  lemma LowBit(i: nat)
    ensures And(i, 1) == i % 2 && CharOf(i % 2) == 48 + i % 2
  {
    SmallPowers();
    AndMask(i, 1);
  }

  /** The cases of the switch, each of which falls through to the next: one
      digit at a time until a multiple of eight is left. */
  method WriteOdd(dest: array<byte>, at: nat, n: nat, digits: nat, ghost was: seq<byte>) returns (i: nat, count: nat)
    requires at + digits < dest.Length && Tail(dest[..], was, at + digits, n, 2, 0)
    modifies dest
    ensures count <= digits && count % 8 == 0 && i == Shift(n, 2, digits - count)
    ensures Tail(dest[..], was, at + digits, n, 2, digits - count)
  {
    assert Shift(n, 2, 0) == n;
    hide Fixed, Tail, CharOf, And, Shift;
    i, count := n, digits;
    var p := at + digits;
    while count % 8 > 0
      invariant count <= digits && p == at + count
      invariant i == Shift(n, 2, digits - count) && Tail(dest[..], was, at + digits, n, 2, digits - count)
      decreases count
    {
      LowBit(i);
      ShiftOne(n, 2, digits - count);
      TailGrows(dest[..], was, at + digits, n, 2, digits - count, 48 + And(i, 1));
      p := p - 1;
      dest[p] := 48 + And(i, 1);
      i := i / 2;
      count := count - 1;
    }
  }

  /** Eight digits at a time. */
  method WriteBytes(dest: array<byte>, at: nat, n: nat, i0: nat, count0: nat, digits: nat, ghost was: seq<byte>)
    requires at + digits < dest.Length && count0 <= digits && count0 % 8 == 0 && i0 == Shift(n, 2, digits - count0)
    requires Tail(dest[..], was, at + digits, n, 2, digits - count0)
    modifies dest
    ensures Tail(dest[..], was, at + digits, n, 2, digits)
  {
    hide Fixed, Tail, CharOf, And, Shift;
    var i, count, p := i0, count0, at + count0;
    while count > 7
      invariant 0 <= count <= digits && count % 8 == 0 && p == at + count
      invariant i == Shift(n, 2, digits - count) && Tail(dest[..], was, at + digits, n, 2, digits - count)
    {
      p := p - 8;
      WriteEight(dest, was, p, i, at + digits, n, digits - count);
      LowByte(i);
      ShiftShift(n, 2, digits - count, 8);
      i := i / 0x100;
      count := count - 8;
    }
  }

  /** fio_ltoa_bin: exactly the given number of digits. */
  method LtoaBin(dest: array<byte>, at: nat, n: nat, digits: nat)
    requires n < BASE && at + digits < dest.Length
    modifies dest
    ensures dest[..] == Patched(old(dest[..]), at, Chars(Fixed(n, 2, digits)) + [0])
  {
    hide Fixed, Tail, Patched, Chars, Shift;
    ghost var was := dest[..];
    dest[at + digits] := 0;
    TailStart(was, at + digits, n, 2);
    var i, count := WriteOdd(dest, at, n, digits, was);
    WriteBytes(dest, at, n, i, count, digits, was);
    TailMeans(dest[..], was, at + digits, n, 2, digits);
  }
}
