/** Karatsuba multiplication: three half-size products instead of four. */
module Karatsuba {
  import opened Words
  import opened CarryOps
  import opened LongMul

  /** The product of the half sums holds all four partial products. */
  lemma SumProduct(al: int, ah: int, bl: int, bh: int, sa: int, sb: int)
    requires sa == al + ah && sb == bl + bh
    ensures sa * sb == al * bl + al * bh + ah * bl + ah * bh
  {
    assert sa * sb == al * sb + ah * sb;
  }

  /** The four partial products at their places are the full product. */
  lemma FullProduct(al: int, ah: int, bl: int, bh: int, p: int, a: int, b: int, cross: int)
    requires a == al + ah * p && b == bl + bh * p && cross == al * bh + ah * bl
    ensures a * b == al * bl + cross * p + ah * bh * (p * p)
  {
    assert a * b == al * b + ah * p * b;
    assert al * b == al * bl + al * bh * p;
    assert ah * p * b == ah * bl * p + ah * bh * (p * p);
    assert cross * p == al * bh * p + ah * bl * p;
  }

  /** One step of a borrow through word i. */
  lemma BorrowStep(t: seq<word>, i: nat, v: word, borrow: word)
    requires i < |t| && borrow <= 1 && v + 1 == t[i] + BASE * borrow
    ensures Val(t[i := v]) - borrow * Pow(i + 1) == Val(t) - Pow(i)
  {
    ValUpdate(t, i, v);
    if borrow == 1 {
      assert (BASE - 1) * Pow(i) == BASE * Pow(i) - Pow(i);
    }
  }

  /** Carries a borrow upwards from word i0 until it is absorbed. */
  method PropagateBorrow(z1: array<word>, i0: nat, borrow0: nat) returns (borrow: nat)
    requires i0 <= z1.Length && borrow0 <= 1
    modifies z1
    ensures borrow == 0 || borrow == 1
    ensures borrow == 0 ==> Val(z1[..]) == old(Val(z1[..])) - borrow0 * Pow(i0)
    ensures borrow == 1 ==> Val(z1[..]) - Pow(z1.Length) == old(Val(z1[..])) - borrow0 * Pow(i0)
  {
    borrow := borrow0;
    ghost var v0 := Val(z1[..]);
    var i := i0;
    while i < z1.Length && borrow != 0
      invariant i <= z1.Length && 0 <= borrow <= 1
      invariant Val(z1[..]) - borrow * Pow(i) == v0 - borrow0 * Pow(i0)
    {
      ghost var t := z1[..];
      var tmp := z1[i];
      var v: word := Wrap(tmp - borrow);
      z1[i] := v;
      borrow := Bit(v > tmp);
      assert z1[..] == t[i := v];
      WrapPredecessor(tmp);
      BorrowStep(t, i, v, borrow);
      i := i + 1;
    }
  }

  /** z1 -= z with the borrow carried into the two upper words of z1. */
  method SubtractFrom(wide: bool, z1: array<word>, z: array<word>, len: nat)
    requires z1 != z && z1.Length == len + 2 && z.Length == len
    requires Val(z1[..]) >= Val(z[..])
    modifies z1
    ensures Val(z1[..]) == old(Val(z1[..])) - Val(z[..])
  {
    ghost var before, zv := z1[..], z[..];
    assert z[0..0 + len] == zv && z1[0..0 + len] == before[..len];
    var borrow := Sub(wide, z1, z1, 0, z, 0, len);
    assert z1[..][..len] == z1[..len] && z1[..][len..] == z1[len..] && before[len..] == old(z1[len..]);
    LowDifference(before, z1[..], Val(zv), len, borrow);
    borrow := PropagateBorrow(z1, len, borrow);
    ValBound(z1[..]);
  }

  /** A subtraction from the low words alone. */
  lemma LowDifference(before: seq<word>, after: seq<word>, z: nat, len: nat, borrow: nat)
    requires |before| == |after| >= len && before[len..] == after[len..]
    requires Val(after[..len]) - borrow * Pow(len) == Val(before[..len]) - z
    ensures Val(after) - borrow * Pow(len) == Val(before) - z
  {
    ValSplit(before, len);
    ValSplit(after, len);
  }

  /** One step of an addition at place off + i. */
  lemma AddStep(t: seq<word>, z: seq<word>, off: nat, i: nat, v: word, c: word, c': word)
    requires i < |z| && off + i < |t| && v + BASE * c' == t[off + i] + z[i] + c
    ensures Val(t[off + i := v]) + c' * Pow(off + i + 1) - Val(z[..i + 1]) * Pow(off)
         == Val(t) + c * Pow(off + i) - Val(z[..i]) * Pow(off)
  {
    WriteWord(t, off + i, v, z[i], c, c');
    ValSnoc(z, i);
    PowAdd(off, i);
    PlaceShift(Val(z[..i]), z[i], Pow(i), Pow(off), Pow(off + i));
  }

  /** Adds the first count words of z into dest from word off on. */
  method AddInto(dest: array<word>, ghost n: nat, off: nat, z: array<word>, count: nat) returns (carry: word)
    requires dest != z && count <= z.Length && off + count <= n <= dest.Length
    modifies dest
    ensures carry <= 1
    ensures Val(dest[..n]) + carry * Pow(off + count) == old(Val(dest[..n])) + Val(z[..count]) * Pow(off)
    ensures dest[n..] == old(dest[n..])
  {
    carry := 0;
    ghost var before := dest[..n];
    for i := 0 to count
      invariant carry <= 1
      invariant Val(dest[..n]) + carry * Pow(off + i) == Val(before) + Val(z[..i]) * Pow(off)
      invariant dest[n..] == old(dest[n..])
    {
      ghost var t, c := dest[..n], carry;
      var v;
      v, carry := AddC(dest[off + i], z[i], carry);
      dest[off + i] := v;
      assert dest[..n] == t[off + i := v];
      assert z[..][..i + 1] == z[..i + 1] && z[..][..i] == z[..i];
      AddStep(t, z[..], off, i, v, c, carry);
    }
  }

  method CopyWords(sum: array<word>, a: array<word>, a0: nat, n: nat)
    requires sum != a && n <= sum.Length && a0 + n <= a.Length
    modifies sum
    ensures sum[..n] == a[a0..a0 + n]
  {
    for i := 0 to n
      invariant sum[..i] == a[a0..a0 + i]
    {
      sum[i] := a[a0 + i];
      assert sum[..i + 1] == sum[..i] + [sum[i]] && a[a0..a0 + i + 1] == a[a0..a0 + i] + [a[a0 + i]];
    }
  }

  /** sum = lo + hi in one word more than either half. */
  method HalfSum(sum: array<word>, a: array<word>, a0: nat, half: nat)
    requires sum != a && sum.Length == half + 1 && a0 + 2 * half <= a.Length
    modifies sum
    ensures Val(sum[..]) == Val(a[a0..a0 + half]) + Val(a[a0 + half..a0 + half + half])
  {
    hide Val, Pow;
    ghost var av := a[..];
    CopyWords(sum, a, a0, half);
    assert sum[0..0 + half] == sum[..half];
    assert a[a0 + half..a0 + half + half] == av[a0 + half..a0 + half + half] && a[a0..a0 + half] == av[a0..a0 + half];
    var c := Add(sum, sum, 0, a, a0 + half, half);
    ghost var low := sum[..half];
    sum[half] := c;
    assert sum[..][..half] == low && sum[..][..half + 1] == sum[..] && a[..] == av;
    ValSnoc(sum[..], half);
  }

  /** The cross terms of two products of half-size numbers. */
  lemma CrossBound(al: nat, ah: nat, bl: nat, bh: nat, p: nat, cross: nat)
    requires al < p && ah < p && bl < p && bh < p && cross == al * bh + ah * bl
    ensures cross < BASE * (p * p)
  {
    MulLe(al, bh, p); MulLt(p, al, p);
    MulLe(ah, bl, p); MulLt(p, ah, p);
  }

  /** The sum of the low product and the shifted cross terms stays below the
      place of the carry its addition drops. */
  lemma MiddleFits(z0: nat, z1: nat, total: nat, p: nat, half: nat, count: nat)
    requires half >= 1 && p == Pow(half) && z0 < p * p && z1 < BASE * (p * p)
    requires total < Pow(4 * half) && z0 + z1 * p <= total
    requires count == if half == 1 then 3 else 2 * half + 2
    ensures z0 + z1 * p < Pow(half + count)
  {
    if half > 1 {
      PowAdd(half, half);
      PowAdd(2 * half, half);
      var q := p * p;
      MulLe(q, 1, p);
      MulLt(p, z1, BASE * q);
      assert BASE * q * p == BASE * (q * p) == Pow(3 * half + 1);
      assert Pow(half + count) == BASE * Pow(3 * half + 1);
    }
  }

  /** The top word of the cross terms is 0, so the shorter addition at
      half == 1 loses nothing. */
  lemma TopWordUnused(z: seq<word>, len: nat, count: nat)
    requires |z| == len + 2 && Val(z) < Pow(len + 1) && len + 1 <= count <= len + 2
    ensures Val(z[..count]) == Val(z)
  {
    ValSnoc(z, len + 1);
    assert z[..len + 2] == z;
    if z[len + 1] > 0 {
      MulLe(Pow(len + 1), 1, z[len + 1]);
      assert false;
    }
  }

  /** dest = z0 in twice as many words. */
  method Place(dest: array<word>, z0: array<word>, len: nat)
    requires dest.Length >= 2 * len && z0.Length == len && dest != z0
    modifies dest
    ensures Val(dest[..2 * len]) == Val(z0[..])
    ensures dest[2 * len..] == old(dest[2 * len..])
  {
    for i := 0 to len
      invariant forall k :: 0 <= k < i ==> dest[k] == z0[k]
      invariant forall k :: len <= k < len + i ==> dest[k] == 0
      invariant dest[2 * len..] == old(dest[2 * len..])
    {
      dest[i], dest[len + i] := z0[i], 0;
    }
    assert dest[..2 * len][..len] == z0[..];
    ValTrim(dest[..2 * len], len);
  }

  /** dest = low product + cross terms * B + high product * B * B, with both
      final carries dropped. */
  method Recombine(dest: array<word>, z0: array<word>, z1: array<word>, z2: array<word>, half: nat, ghost total: nat)
    requires half >= 1 && dest.Length >= 4 * half && z0.Length == z2.Length == 2 * half && z1.Length == 2 * half + 2
    requires dest != z0 && dest != z1 && dest != z2
    requires total == Val(z0[..]) + Val(z1[..]) * Pow(half) + Val(z2[..]) * Pow(2 * half)
    requires total < Pow(4 * half) && Val(z1[..]) < Pow(2 * half + 1)
    modifies dest
    ensures Val(dest[..4 * half]) == total
    ensures dest[4 * half..] == old(dest[4 * half..])
  {
    var len := 2 * half;
    Place(dest, z0, len);
    var count := if half == 1 then 3 else len + 2;
    var carry := AddInto(dest, 2 * len, half, z1, count);
    assert z1[..][..count] == z1[..count];
    MiddleDone(Val(dest[..2 * len]), z0[..], z1[..], Val(z2[..]), total, half, count, carry);
    AddHigh(dest, z2, len, total);
  }

  /** Adding the high product last: the carry out of the top word is 0. */
  method AddHigh(dest: array<word>, z2: array<word>, len: nat, ghost total: nat)
    requires dest != z2 && z2.Length == len && dest.Length >= 2 * len
    requires total == Val(dest[..2 * len]) + Val(z2[..]) * Pow(len) && total < Pow(2 * len)
    modifies dest
    ensures Val(dest[..2 * len]) == total
    ensures dest[2 * len..] == old(dest[2 * len..])
  {
    assert z2[..len] == z2[..];
    var carry := AddInto(dest, 2 * len, len, z2, len);
    TopCarry(Val(dest[..2 * len]), 0, carry, Pow(2 * len));
  }

  /** Adding the cross terms leaves no carry and loses no word. */
  lemma MiddleDone(v: nat, z0: seq<word>, z1: seq<word>, z2: nat, total: nat, half: nat, count: nat, carry: nat)
    requires half >= 1 && |z0| == 2 * half && |z1| == 2 * half + 2 && Val(z1) < Pow(2 * half + 1)
    requires total == Val(z0) + Val(z1) * Pow(half) + z2 * Pow(2 * half) && total < Pow(4 * half)
    requires count == if half == 1 then 3 else 2 * half + 2
    requires v + carry * Pow(half + count) == Val(z0) + Val(z1[..count]) * Pow(half)
    ensures carry == 0 && v == Val(z0) + Val(z1) * Pow(half)
  {
    PowAdd(half, half);
    ValBound(z0);
    MulNat(z2, Pow(2 * half));
    MiddleFits(Val(z0), Val(z1), total, Pow(half), half, count);
    TopWordUnused(z1, 2 * half, count);
    TopCarry(v, 0, carry, Pow(half + count));
  }

  /** Karatsuba multiplication of two numbers of an even length. The target may be
      an operand, which is read before anything is written. */
  method MulKaratsuba(wide: bool, dest: array<word>, a: array<word>, a0: nat, b: array<word>, b0: nat, len: nat)
    requires len >= 2 && len % 2 == 0
    requires 2 * len <= dest.Length && a0 + len <= a.Length && b0 + len <= b.Length
    modifies dest
    ensures Val(dest[..2 * len]) == old(Val(a[a0..a0 + len]) * Val(b[b0..b0 + len]))
    ensures dest[2 * len..] == old(dest[2 * len..])
  {
    hide Val, Pow;
    var half := len / 2;
    ghost var av, bv := a[..], b[..];
    assert av[a0..a0 + len] == av[a0..a0 + half] + av[a0 + half..a0 + half + half];
    assert bv[b0..b0 + len] == bv[b0..b0 + half] + bv[b0 + half..b0 + half + half];
    var z0, z1, z2 := HalfProducts(wide, a, a0, b, b0, half);
    assert a[..] == av && b[..] == bv;
    ghost var cross, total := MiddleTerm(wide, z0, z1, z2, half,
      av[a0..a0 + half], av[a0 + half..a0 + half + half], bv[b0..b0 + half], bv[b0 + half..b0 + half + half]);
    Recombine(dest, z0, z1, z2, half, total);
  }

  /** Takes the low and the high product off the product of the half sums. */
  method MiddleTerm(wide: bool, z0: array<word>, z1: array<word>, z2: array<word>, half: nat,
                    ghost al: seq<word>, ghost ah: seq<word>, ghost bl: seq<word>, ghost bh: seq<word>)
    returns (ghost cross: nat, ghost total: nat)
    requires z0 != z1 && z1 != z2 && z0.Length == z2.Length == 2 * half && z1.Length == 2 * half + 2
    requires |al| == |ah| == |bl| == |bh| == half
    requires Val(z0[..]) == Val(al) * Val(bl) && Val(z2[..]) == Val(ah) * Val(bh)
    requires Val(z1[..]) == (Val(al) + Val(ah)) * (Val(bl) + Val(bh))
    modifies z1
    ensures Val(z1[..]) == cross < Pow(2 * half + 1)
    ensures total == Val(al + ah) * Val(bl + bh) == Val(z0[..]) + cross * Pow(half) + Val(z2[..]) * Pow(2 * half)
    ensures total < Pow(4 * half)
  {
    hide Val, Pow;
    cross, total := Parts(al, ah, bl, bh, half, Val(z0[..]), Val(z1[..]), Val(z2[..]));
    SubtractFrom(wide, z1, z0, 2 * half);
    SubtractFrom(wide, z1, z2, 2 * half);
  }

  /** The low product, the product of the half sums and the high product. */
  method HalfProducts(wide: bool, a: array<word>, a0: nat, b: array<word>, b0: nat, half: nat)
    returns (z0: array<word>, z1: array<word>, z2: array<word>)
    requires half >= 1 && a0 + 2 * half <= a.Length && b0 + 2 * half <= b.Length
    ensures fresh(z0) && fresh(z1) && fresh(z2) && z0 != z1 && z1 != z2
    ensures z0.Length == z2.Length == 2 * half && z1.Length == 2 * half + 2
    ensures Val(z0[..]) == Val(a[a0..a0 + half]) * Val(b[b0..b0 + half])
    ensures Val(z2[..]) == Val(a[a0 + half..a0 + half + half]) * Val(b[b0 + half..b0 + half + half])
    ensures Val(z1[..]) == (Val(a[a0..a0 + half]) + Val(a[a0 + half..a0 + half + half]))
                         * (Val(b[b0..b0 + half]) + Val(b[b0 + half..b0 + half + half]))
  {
    hide Val, Pow;
    ghost var av, bv := a[..], b[..];
    z0, z2, z1 := new word[2 * half], new word[2 * half], new word[2 * half + 2];
    MulNoRecurse(wide, z0, a, a0, b, b0, half);
    assert z0[..] == z0[..2 * half] && a[..] == av && b[..] == bv;
    MulNoRecurse(wide, z2, a, a0 + half, b, b0 + half, half);
    assert z2[..] == z2[..2 * half] && a[..] == av && b[..] == bv;
    SumsProduct(wide, z1, a, a0, b, b0, half);
    assert a[..] == av && b[..] == bv;
  }

  /** z1 = (low half + high half of a) * (low half + high half of b). */
  method SumsProduct(wide: bool, z1: array<word>, a: array<word>, a0: nat, b: array<word>, b0: nat, half: nat)
    requires half >= 1 && a0 + 2 * half <= a.Length && b0 + 2 * half <= b.Length
    requires z1.Length == 2 * half + 2 && z1 != a && z1 != b
    modifies z1
    ensures Val(z1[..]) == (Val(a[a0..a0 + half]) + Val(a[a0 + half..a0 + half + half]))
                         * (Val(b[b0..b0 + half]) + Val(b[b0 + half..b0 + half + half]))
  {
    hide Val, Pow;
    var sumA, sumB := new word[half + 1], new word[half + 1];
    HalfSum(sumA, a, a0, half);
    HalfSum(sumB, b, b0, half);
    assert sumA[0..0 + (half + 1)] == sumA[..] && sumB[0..0 + (half + 1)] == sumB[..];
    MulNoRecurse(wide, z1, sumA, 0, sumB, 0, half + 1);
    assert z1[..] == z1[..2 * (half + 1)];
  }

  /** The middle term never underflows, has at most one word more than a half
      product, and completes the product. */
  lemma Parts(al: seq<word>, ah: seq<word>, bl: seq<word>, bh: seq<word>, half: nat, z0: nat, z1: nat, z2: nat)
    returns (cross: nat, total: nat)
    requires |al| == |ah| == |bl| == |bh| == half
    requires z0 == Val(al) * Val(bl) && z2 == Val(ah) * Val(bh)
    requires z1 == (Val(al) + Val(ah)) * (Val(bl) + Val(bh))
    ensures z1 == z0 + cross + z2 && cross < Pow(2 * half + 1)
    ensures total == Val(al + ah) * Val(bl + bh) == z0 + cross * Pow(half) + z2 * Pow(2 * half)
    ensures total < Pow(4 * half)
  {
    ValConcat(al, ah); ValConcat(bl, bh);
    PowAdd(half, half);
    ValBound(al); ValBound(ah); ValBound(bl); ValBound(bh);
    MulNat(Val(al), Val(bh)); MulNat(Val(ah), Val(bl));
    cross := Val(al) * Val(bh) + Val(ah) * Val(bl);
    CrossBound(Val(al), Val(ah), Val(bl), Val(bh), Pow(half), cross);
    SumProduct(Val(al), Val(ah), Val(bl), Val(bh), Val(al) + Val(ah), Val(bl) + Val(bh));
    FullProduct(Val(al), Val(ah), Val(bl), Val(bh), Pow(half), Val(al + ah), Val(bl + bh), cross);
    MulNat(Val(al + ah), Val(bl + bh));
    total := Val(al + ah) * Val(bl + bh);
    ProductBound(al + ah, bl + bh);
  }

  /** Length from which an even-length product is split. */
  const THRESHOLD: nat := 32

  /** fio_math_mul: whatever the length and the platform, the product. */
  method Mul(wide: bool, dest: array<word>, a: array<word>, a0: nat, b: array<word>, b0: nat, len: nat)
    requires dest != a && dest != b && 2 * len <= dest.Length && a0 + len <= a.Length && b0 + len <= b.Length
    requires len == 0 ==> dest.Length > 0
    modifies dest
    ensures len > 0 ==> Val(dest[..2 * len]) == Val(a[a0..a0 + len]) * Val(b[b0..b0 + len])
    ensures len == 0 ==> dest[0] == 0
    ensures len > 0 ==> dest[2 * len..] == old(dest[2 * len..])
  {
    if len >= THRESHOLD && len % 2 == 0 {
      ghost var av, bv := a[a0..a0 + len], b[b0..b0 + len];
      MulKaratsuba(wide, dest, a, a0, b, b0, len);
      assert a[a0..a0 + len] == av && b[b0..b0 + len] == bv;
    } else {
      MulNoRecurse(wide, dest, a, a0, b, b0, len);
    }
  }
}
