/** Word addition, subtraction and multiplication with carry, and the
    multi-word loops built on them. */
module CarryOps {
  import opened Words

  const HALF: nat := 0x1_0000_0000

  /** 64-bit wrap-around of a difference of words. */
  function Wrap(x: int): word {
    x % BASE
  }

  lemma WrapSmall(x: int)
    requires 0 <= x < BASE
    ensures Wrap(x) == x
  {
  }

  lemma WrapPredecessor(x: word)
    ensures Wrap(x - 1) == if x == 0 then BASE - 1 else x - 1
  {
  }

  function Bit(b: bool): nat {
    if b then 1 else 0
  }

  /** The portable carry chain: two wrapping additions, each compared with one
      of its own operands to see whether it wrapped. */
  method AddC(a: word, b: word, carryIn: word) returns (u: word, carryOut: word)
    ensures u + BASE * carryOut == a + b + carryIn
    ensures carryIn <= 1 ==> carryOut <= 1
  {
    var b' := Wrap(b + carryIn);
    u := Wrap(a + b');
    carryOut := Bit(b' < carryIn) + Bit(u < a);
  }

  /** The borrow through 128-bit arithmetic: bit 127 of the wrapped difference. */
  method SubC128(a: word, b: word, borrowIn: word) returns (u: word, borrowOut: word)
    requires borrowIn <= 1
    ensures u - BASE * borrowOut == a - b - borrowIn && borrowOut <= 1
  {
    var wide := (a - b - borrowIn) % (BASE * BASE);
    borrowOut := wide / (BASE * BASE / 2);
    u := wide % BASE;
  }

  /** The portable borrow chain. */
  method SubCPortable(a: word, b: word, borrowIn: word) returns (u: word, borrowOut: word)
    ensures u - BASE * borrowOut == a - b - borrowIn
    ensures borrowIn <= 1 ==> borrowOut <= 1
  {
    u := Wrap(a - b);
    var a' := Bit(u > a);
    var b' := Bit(u < borrowIn);
    u := Wrap(u - borrowIn);
    borrowOut := a' + b';
  }

  /** Subtraction as the platform compiles it. */
  method SubC(wide: bool, a: word, b: word, borrowIn: word) returns (u: word, borrowOut: word)
    requires borrowIn <= 1
    ensures u - BASE * borrowOut == a - b - borrowIn && borrowOut <= 1
  {
    if wide {
      u, borrowOut := SubC128(a, b, borrowIn);
    } else {
      u, borrowOut := SubCPortable(a, b, borrowIn);
    }
  }

  lemma HalfSplit(x: word)
    ensures x == x % HALF + HALF * (x / HALF) && x / HALF < HALF
  {
  }

  lemma HalfProduct(x: nat, y: nat)
    requires x < HALF && y < HALF
    ensures 0 <= x * y <= (HALF - 1) * (HALF - 1)
  {
    MulLe(x, y, HALF - 1);
    MulLe(HALF - 1, x, HALF - 1);
  }

  lemma CrossProducts(al: nat, ah: nat, bl: nat, bh: nat, a: nat, b: nat)
    requires a == al + HALF * ah && b == bl + HALF * bh
    ensures a * b == al * bl + HALF * (al * bh) + HALF * (ah * bl) + BASE * (ah * bh)
  {
    assert a * b == al * b + HALF * (ah * b);
    assert al * b == al * bl + HALF * (al * bh);
    assert ah * b == ah * bl + HALF * (ah * bh);
  }

  lemma ShiftHalf(x: word)
    ensures Wrap(HALF * x) == HALF * (x % HALF)
  {
    HalfSplit(x);
  }

  /** The partial products recombine to the product, and the high part fits a
      word because the product fits two. */
  lemma Recombine(ab: nat, lo: nat, hi: nat, p: nat, q: nat, mid: word, midc: nat, r: word, lowc: nat)
    requires ab == lo + HALF * p + HALF * q + BASE * hi && ab <= (BASE - 1) * (BASE - 1)
    requires mid + BASE * midc == p + q && midc <= 1
    requires r + BASE * lowc == lo + HALF * (mid % HALF) && lowc <= 1
    ensures Wrap(HALF * midc) == HALF * midc
    ensures Wrap(hi + mid / HALF + HALF * midc + lowc) == hi + mid / HALF + HALF * midc + lowc
    ensures r + BASE * (hi + mid / HALF + HALF * midc + lowc) == ab
  {
    HalfSplit(mid);
    WrapSmall(HALF * midc);
    WrapSmall(hi + mid / HALF + HALF * midc + lowc);
  }

  /** Full product through four 32-bit products. */
  method MulCPortable(a: word, b: word) returns (r: word, carryOut: word)
    ensures r + BASE * carryOut == a * b
  {
    var lo: word, hi: word, p: word, q: word := HalfProducts(a, b);
    var mid, midc := AddC(p, q, 0);
    var midShifted := Wrap(HALF * mid);
    ShiftHalf(mid);
    var lowc;
    r, lowc := AddC(lo, midShifted, 0);
    WordProduct(a, b);
    Recombine(a * b, lo, hi, p, q, mid, midc, r, lowc);
    carryOut := Wrap(hi + mid / HALF + Wrap(HALF * midc) + lowc);
  }

  /** The low, high and two middle products of the halves of two words. */
  method HalfProducts(a: word, b: word) returns (lo: word, hi: word, p: word, q: word)
    ensures a * b == lo + HALF * p + HALF * q + BASE * hi
  {
    var al, ah := a % HALF, a / HALF;
    var bl, bh := b % HALF, b / HALF;
    HalfProduct(al, bl); HalfProduct(ah, bh); HalfProduct(al, bh); HalfProduct(ah, bl);
    CrossProducts(al, ah, bl, bh, a, b);
    lo, hi, p, q := al * bl, ah * bh, al * bh, ah * bl;
  }

  method MulC(wide: bool, a: word, b: word) returns (r: word, carryOut: word)
    ensures r + BASE * carryOut == a * b
  {
    if wide {
      WordProduct(a, b);
      carryOut := a * b / BASE;
      r := a * b % BASE;
    } else {
      r, carryOut := MulCPortable(a, b);
    }
  }

  /** One word further along a carry chain. */
  lemma AddChain(d: seq<word>, d': seq<word>, a: seq<word>, b: seq<word>, i: nat, c: word, c': word)
    requires i < |a| == |b| && |d| == i && |d'| == i + 1 && d'[..i] == d
    requires Val(d) + c * Pow(i) == Val(a[..i]) + Val(b[..i])
    requires d'[i] + BASE * c' == a[i] + b[i] + c
    ensures Val(d') + c' * Pow(i + 1) == Val(a[..i + 1]) + Val(b[..i + 1])
  {
    ValSnoc(a, i); ValSnoc(b, i); ValSnoc(d', i);
    assert d'[..i + 1] == d';
    PlaceBorrow(a[i], d'[i], b[i], c, c', Pow(i));
  }

  /** Multi-word addition from the start of dest. The operands may be slices of
      dest itself: every word is read before the place it is in is written. */
  method Add(dest: array<word>, a: array<word>, a0: nat, b: array<word>, b0: nat, len: nat)
    returns (c: word)
    requires len <= dest.Length && a0 + len <= a.Length && b0 + len <= b.Length
    modifies dest
    ensures c <= 1
    ensures Val(dest[..len]) + c * Pow(len) == old(Val(a[a0..a0 + len]) + Val(b[b0..b0 + len]))
    ensures dest[len..] == old(dest[len..])
  {
    ghost var av, bv := a[a0..a0 + len], b[b0..b0 + len];
    c := 0;
    for i := 0 to len
      invariant c <= 1
      invariant Val(dest[..i]) + c * Pow(i) == Val(av[..i]) + Val(bv[..i])
      invariant forall k :: i <= k < len ==> a[a0 + k] == av[k] && b[b0 + k] == bv[k]
      invariant dest[len..] == old(dest[len..])
    {
      ghost var d, c0 := dest[..i], c;
      var u;
      u, c := AddC(a[a0 + i], b[b0 + i], c);
      dest[i] := u;
      assert dest[..i + 1][..i] == d;
      AddChain(d, dest[..i + 1], av, bv, i, c0, c);
    }
    assert av[..len] == av && bv[..len] == bv;
  }

  lemma SubChain(d: seq<word>, d': seq<word>, a: seq<word>, b: seq<word>, i: nat, c: word, c': word)
    requires i < |a| == |b| && |d| == i && |d'| == i + 1 && d'[..i] == d
    requires Val(d) - c * Pow(i) == Val(a[..i]) - Val(b[..i])
    requires d'[i] - BASE * c' == a[i] - b[i] - c
    ensures Val(d') - c' * Pow(i + 1) == Val(a[..i + 1]) - Val(b[..i + 1])
  {
    ValSnoc(a, i); ValSnoc(b, i); ValSnoc(d', i);
    assert d'[..i + 1] == d';
    PlaceBorrow(d'[i], a[i], b[i], c, c', Pow(i));
  }

  /** Multi-word subtraction; the borrow says the difference was negative. */
  method Sub(wide: bool, dest: array<word>, a: array<word>, a0: nat, b: array<word>, b0: nat, len: nat)
    returns (c: word)
    requires len <= dest.Length && a0 + len <= a.Length && b0 + len <= b.Length
    modifies dest
    ensures c <= 1
    ensures Val(dest[..len]) - c * Pow(len) == old(Val(a[a0..a0 + len]) - Val(b[b0..b0 + len]))
    ensures c == 1 <==> old(Val(a[a0..a0 + len]) < Val(b[b0..b0 + len]))
    ensures dest[len..] == old(dest[len..])
  {
    ghost var av, bv := a[a0..a0 + len], b[b0..b0 + len];
    c := 0;
    for i := 0 to len
      invariant c <= 1
      invariant Val(dest[..i]) - c * Pow(i) == Val(av[..i]) - Val(bv[..i])
      invariant forall k :: i <= k < len ==> a[a0 + k] == av[k] && b[b0 + k] == bv[k]
      invariant dest[len..] == old(dest[len..])
    {
      ghost var d, c0 := dest[..i], c;
      var u;
      u, c := SubC(wide, a[a0 + i], b[b0 + i], c);
      dest[i] := u;
      assert dest[..i + 1][..i] == d;
      SubChain(d, dest[..i + 1], av, bv, i, c0, c);
    }
    assert av[..len] == av && bv[..len] == bv;
    ValBound(dest[..len]);
  }
}
