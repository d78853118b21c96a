/** Montgomery multiplication of fixed-width numbers. */
module Montgomery {
  import opened Words
  import opened CarryOps
  import opened Modular
  import Karatsuba

  /** Carry chain of the fixed-width vectors: one comparison with the sum. */
  method VecAdd(result: array<word>, a: array<word>, b: array<word>, n: nat) returns (carry: word)
    requires result.Length == a.Length == b.Length == n
    modifies result
    ensures carry <= 1
    ensures Val(result[..]) + carry * Pow(n) == old(Val(a[..]) + Val(b[..]))
  {
    ghost var av, bv := a[..], b[..];
    carry := 0;
    for i := 0 to n
      invariant carry <= 1
      invariant Val(result[..i]) + carry * Pow(i) == Val(av[..i]) + Val(bv[..i])
      invariant forall k :: i <= k < n ==> a[k] == av[k] && b[k] == bv[k]
    {
      ghost var d, c0 := result[..i], carry;
      var ai, bi := a[i], b[i];
      var sum := Wrap(ai + bi + carry);
      carry := if sum < ai || (carry == 1 && sum == ai) then 1 else 0;
      result[i] := sum;
      assert result[..i + 1][..i] == d;
      AddChain(d, result[..i + 1], av, bv, i, c0, carry);
    }
    assert av[..n] == av && bv[..n] == bv && result[..n] == result[..];
  }

  /** Borrow chain of the fixed-width vectors, from word a0 of a. */
  method VecSub(result: array<word>, a: array<word>, a0: nat, b: array<word>, n: nat) returns (borrow: word)
    requires n <= result.Length && a0 + n <= a.Length && n == b.Length && result != b
    modifies result
    ensures borrow <= 1
    ensures Val(result[..n]) - borrow * Pow(n) == old(Val(a[a0..a0 + n])) - Val(b[..])
    ensures result[n..] == old(result[n..])
  {
    ghost var av, bv := a[a0..a0 + n], b[..];
    borrow := 0;
    for i := 0 to n
      invariant borrow <= 1
      invariant Val(result[..i]) - borrow * Pow(i) == Val(av[..i]) - Val(bv[..i])
      invariant forall k :: i <= k < n ==> a[a0 + k] == av[k]
      invariant result[n..] == old(result[n..])
    {
      ghost var d, c0 := result[..i], borrow;
      var ai, bi := a[a0 + i], b[i];
      var diff := Wrap(ai - bi - borrow);
      borrow := if ai < bi || (ai == bi && borrow == 1) then 1 else 0;
      result[i] := diff;
      assert result[..i + 1][..i] == d;
      SubChain(d, result[..i + 1], av, bv, i, c0, borrow);
    }
    assert av[..n] == av && bv[..n] == bv;
  }

  /** Three-way comparison, from the most significant word down, without
      leaving the loop early. */
  method VecCmp(a: array<word>, b: array<word>, n: nat) returns (r: int)
    requires a.Length == b.Length == n
    ensures r == if Val(a[..]) < Val(b[..]) then -1 else if Val(a[..]) == Val(b[..]) then 0 else 1
  {
    var isEq, isBigger := true, false;
    var i := n;
    while i > 0
      invariant 0 <= i <= n
      invariant isEq ==> a[i..] == b[i..] && !isBigger
      invariant isBigger ==> Val(a[i..]) > Val(b[i..])
      invariant !isEq && !isBigger ==> Val(a[i..]) < Val(b[i..])
    {
      i := i - 1;
      assert a[i..][1..] == a[i + 1..] && b[i..][1..] == b[i + 1..];
      isBigger := isBigger || (isEq && a[i] > b[i]);
      isEq := isEq && a[i] == b[i];
    }
    assert a[0..] == a[..] && b[0..] == b[..];
    r := (if isEq then 1 else 0) - 1 + (if isBigger then 2 else 0);
  }

  /** The multiple of n that clears the low half of t. */
  ghost function ClearingFactor(t: nat, nDash: nat, r: nat): nat
    requires r > 0
  {
    (t % r * nDash) % r
  }

  /** What the last step keeps of a 2w-word sum u. */
  ghost function Reduced(u: nat, n: nat, r: nat): nat
    requires r > 0
  {
    if u / r < n then u / r else u / r - n
  }

  /** The reduction of t: the sum of t and the multiple of n that clears its low
      half, with the carry out of the double width dropped. */
  ghost function Redc(t: nat, n: nat, nDash: nat, r: nat): nat
    requires r > 0
  {
    Reduced((t + ClearingFactor(t, nDash, r) * n) % (r * r), n, r)
  }

  /** fio_uX_montgomery_mul, for any width. The low half of the second product
      is read into a copy, because the target of a multiplication must not
      overlap its operands. */
  method MontgomeryMul(wide: bool, result: array<word>, a: array<word>, b: array<word>,
                       n: array<word>, nDash: array<word>, w: nat)
    requires w > 0 && result.Length == a.Length == b.Length == n.Length == nDash.Length == w
    modifies result
    ensures Val(result[..]) == old(Redc(Val(a[..]) * Val(b[..]), Val(n[..]), Val(nDash[..]), Pow(w)))
  {
    ghost var av, bv, nv, dv := a[..], b[..], n[..], nDash[..];
    assert a[..w] == av;
    var t := VecMul(wide, a, b, w);
    ghost var tv: nat := Val(t[..]);
    assert n[..] == nv && nDash[..] == dv;
    var m := FactorOf(wide, t, nDash, w);
    ghost var mv: nat := Val(m[..]);
    assert m[..w] == m[..] && n[..] == nv;
    var mN := VecMul(wide, m, n, w);
    var u := new word[2 * w];
    ghost var xv: nat := Val(mN[..]);
    var ignored := VecAdd(u, t, mN, 2 * w);
    assert n[..] == nv;
    ValBound(u[..]);
    SumTruncated(Val(u[..]), ignored, tv, mv, xv, Val(nv), Val(dv), w);
    SubtractOnce(result, u, n, w);
  }

  /** The second product, of which only the low half is read on. */
  method FactorOf(wide: bool, t: array<word>, nDash: array<word>, w: nat) returns (m: array<word>)
    requires w > 0 && t.Length == 2 * w && nDash.Length == w
    ensures fresh(m) && m.Length == w
    ensures Val(m[..]) == ClearingFactor(Val(t[..]), Val(nDash[..]), Pow(w))
  {
    ghost var tv, dv := t[..], nDash[..];
    LowHalf(tv, w);
    assert t[..w] == tv[..w];
    var mN := VecMul(wide, t, nDash, w);
    LowHalf(mN[..], w);
    ghost var xv := mN[..];
    m := new word[w];
    forall k | 0 <= k < w { m[k] := mN[k]; }
    assert m[..] == xv[..w] && t[..] == tv && nDash[..] == dv;
    LowFactor(Val(tv), Val(dv), Pow(w), Val(tv[..w]), Val(xv), Val(xv[..w]));
  }

  lemma LowFactor(t: nat, nDash: nat, r: nat, low: nat, x: nat, m: nat)
    requires r > 0 && low == t % r && x == low * nDash && m == x % r
    ensures m == ClearingFactor(t, nDash, r)
  {
  }

  /** fio_uX_mul into a new number of twice the width. */
  method VecMul(wide: bool, a: array<word>, b: array<word>, w: nat) returns (result: array<word>)
    requires w > 0 && a.Length >= w && b.Length == w
    ensures fresh(result) && result.Length == 2 * w
    ensures Val(result[..]) == Val(a[..w]) * Val(b[..])
  {
    ghost var av, bv := a[..w], b[..];
    result := new word[2 * w];
    assert a[0..0 + w] == av && b[0..0 + w] == bv;
    Karatsuba.Mul(wide, result, a, 0, b, 0, w);
    assert result[..2 * w] == result[..] && b[..] == bv && a[..w] == av;
  }

  /** Keeps the high half of u, less n if it is not below n. */
  method SubtractOnce(result: array<word>, u: array<word>, n: array<word>, w: nat)
    requires w > 0 && result.Length == n.Length == w && u.Length == 2 * w && u != n && u != result
    modifies result, u
    ensures Val(result[..]) == old(Reduced(Val(u[..]), Val(n[..]), Pow(w)))
  {
    ghost var high, nv := u[w..], n[..];
    LowHalf(u[..], w);
    assert u[..][w..] == high && u[w..w + w] == high;
    var selector := VecSub(u, u, w, n, w);
    ghost var low := u[..w];
    SelectHalf(low, high, nv, selector, w);
    forall k | 0 <= k < w { result[k] := u[selector * w + k]; }
    assert result[..] == if selector == 0 then low else high;
  }

  lemma LowHalf(s: seq<word>, w: nat)
    requires |s| == 2 * w
    ensures Val(s[..w]) == Val(s) % Pow(w) && Val(s[w..]) == Val(s) / Pow(w)
  {
    ValSplit(s, w);
    ValBound(s[..w]);
    DivModUnique(Val(s), Val(s[w..]), Val(s[..w]), Pow(w));
  }

  lemma SumTruncated(u: nat, carry: nat, t: nat, m: nat, x: nat, n: nat, nDash: nat, w: nat)
    requires m == ClearingFactor(t, nDash, Pow(w)) && x == m * n
    requires u + carry * Pow(2 * w) == t + x && u < Pow(2 * w)
    ensures Reduced(u, n, Pow(w)) == Redc(t, n, nDash, Pow(w))
  {
    PowAdd(w, w);
    DivModUnique(t + x, carry, u, Pow(2 * w));
  }

  /** The borrow selects the reduced half. */
  lemma SelectHalf(low: seq<word>, high: seq<word>, n: seq<word>, borrow: nat, w: nat)
    requires |low| == |high| == |n| == w && borrow <= 1
    requires Val(low) - borrow * Pow(w) == Val(high) - Val(n)
    ensures borrow == 1 <==> Val(high) < Val(n)
    ensures Val(if borrow == 0 then low else high) == if Val(high) < Val(n) then Val(high) else Val(high) - Val(n)
  {
    ValBound(low);
  }

  /** The sum before the reduction is a multiple of r. */
  lemma LowHalfCleared(t: nat, n: nat, nDash: nat, r: nat) returns (hi: nat)
    requires r > 0 && (n * nDash + 1) % r == 0
    ensures t + ClearingFactor(t, nDash, r) * n == hi * r
  {
    var k := Modular.Factor(n * nDash + 1, r);
    var m, q := ClearingFactor(t, nDash, r), t % r * nDash / r;
    var h := ClearedSum(t / r, t % r, q, m, n, nDash, k, r);
    MulNat(m, n);
    NonNegativeFactor(h, r);
    hi := h;
  }

  lemma ClearedSum(t1: int, t0: int, q: int, m: int, n: int, nDash: int, k: int, r: int) returns (h: int)
    requires t0 * nDash == q * r + m && n * nDash + 1 == k * r
    ensures (t1 * r + t0) + m * n == h * r
  {
    h := t1 + t0 * k - q * n;
    calc {
      m * n;
      (t0 * nDash - q * r) * n;
      t0 * (n * nDash) - q * n * r;
      t0 * (k * r - 1) - q * n * r;
      t0 * k * r - t0 - q * n * r;
    }
  }

  lemma SumBound(t: nat, n: nat, m: nat, r: nat, hi: nat)
    requires t < n * n && n < r && m < r && hi * r == t + m * n
    ensures hi < 2 * n
  {
    MulLt(n, m, r); MulLe(n, n, r);
    assert 2 * n * r == n * r + n * r;
    QuotientBound(hi, 2 * n, r);
  }

  lemma QuotientBound(h: int, c: int, r: int)
    requires r > 0 && h * r < c * r
    ensures h < c
  {
    assert (h - c + 1) * r < r;
    BelowOne(h - c + 1, r);
  }

  lemma Small(x: nat, d: nat)
    requires x < d
    ensures x % d == x
  {
  }

  /** What the reduction returns: the quotient, less n if it is not below n,
      as long as the sum fits the double width. */
  lemma RedcFits(t: nat, n: nat, nDash: nat, r: nat) returns (hi: nat)
    requires r > 0 && (n * nDash + 1) % r == 0 && t < n * n && n < r
    requires t + ClearingFactor(t, nDash, r) * n < r * r
    ensures hi < 2 * n && hi * r == t + ClearingFactor(t, nDash, r) * n
    ensures Redc(t, n, nDash, r) == if hi < n then hi else hi - n
  {
    hi := LowHalfCleared(t, n, nDash, r);
    SumBound(t, n, ClearingFactor(t, nDash, r), r, hi);
    Small(hi * r, r * r);
    Modular.DivModUnique(hi * r, hi, 0, r);
  }

  /** hi * r and (hi - n) * r are congruent to the product modulo n. */
  lemma RedcCongruent(t: nat, n: nat, m: nat, r: nat, hi: nat, result: nat)
    requires n > 0 && hi * r == t + m * n && result == (if hi < n then hi else hi - n)
    ensures (result * r) % n == t % n
  {
    if hi < n {
      Congruent(result * r, t, m, n);
    } else {
      assert result * r == hi * r - n * r == t + (m - r) * n;
      Congruent(result * r, t, m - r, n);
    }
  }

  /** Once the sum carries, the truncated sum is returned unreduced. */
  lemma CarriedRedc(t: nat, n: nat, nDash: nat, r: nat) returns (h: nat)
    requires r > 0 && (n * nDash + 1) % r == 0 && t < n * n && n < r
    requires t + ClearingFactor(t, nDash, r) * n >= r * r
    ensures Redc(t, n, nDash, r) == h < n
    ensures h * r + r * r == t + ClearingFactor(t, nDash, r) * n
  {
    var hi := LowHalfCleared(t, n, nDash, r);
    SumBound(t, n, ClearingFactor(t, nDash, r), r, hi);
    assert (hi - r) * r == hi * r - r * r;
    NonNegativeFactor(hi - r, r);
    h := hi - r;
    CarriedQuotient(hi * r, h, r);
  }

  lemma CarriedQuotient(x: nat, h: nat, r: nat)
    requires 0 < r && h < r && x == h * r + r * r
    ensures x % (r * r) == h * r && (x % (r * r)) / r == h
  {
    MulLt(r, h, r);
    Modular.DivModUnique(x, 1, h * r, r * r);
    Modular.DivModUnique(h * r, h, 0, r);
  }

  /** The result then misses the product by r * r, never a multiple of n. */
  lemma CarryBreaks(t: nat, n: nat, nDash: nat, r: nat)
    requires r > 0 && (n * nDash + 1) % r == 0 && t < n * n && n < r
    requires t + ClearingFactor(t, nDash, r) * n >= r * r
    ensures Redc(t, n, nDash, r) < n
    ensures (Redc(t, n, nDash, r) * r) % n != t % n
  {
    var m := ClearingFactor(t, nDash, r);
    var h := CarriedRedc(t, n, nDash, r);
    if (h * r) % n == t % n {
      var k := Witness(h * r, t, n);
      assert r * r == (m - k) * n;
      SquareNotMultiple(n, nDash, r, m - k);
      MulLe(r, 1, r);
      assert false;
    }
  }

  /** r is invertible modulo n, so n divides r * r only if n is 1. */
  lemma SquareNotMultiple(n: nat, nDash: nat, r: nat, j: int)
    requires r > 0 && n > 0 && (n * nDash + 1) % r == 0 && r * r == j * n
    ensures n == 1
  {
    var k := Modular.Factor(n * nDash + 1, r);
    calc {
      (n * nDash + 1) * (n * nDash + 1);
      (k * r) * (k * r);
      k * k * (r * r);
      k * k * (j * n);
      k * k * j * n;
    }
    var d := k * k * j - n * nDash * nDash - 2 * nDash;
    assert (n * nDash + 1) * (n * nDash + 1) == (n * nDash * nDash + 2 * nDash) * n + 1;
    assert d * n == 1;
    if n > 1 {
      Modular.DivModUnique(1, 0, 1, n);
      Modular.DivModUnique(1, d, 0, n);
      assert false;
    }
  }

  lemma ProductBelowSquare(a: nat, b: nat, n: nat)
    requires a < n && b < n
    ensures 0 <= a * b < n * n
  {
    MulLe(a, b, n); MulLt(n, a, n); MulNat(a, b);
  }

  /** A bound on n alone under which no sum of a reduced product and a multiple
      of n carries. */
  predicate NeverCarries(n: nat, r: nat) {
    (n - 1) * (n - 1) + (r - 1) * n < r * r
  }

  /** Moduli of at most three fifths of the range never carry. */
  lemma ThreeFifthsFit(n: nat, r: nat)
    requires n > 0 && 5 * n <= 3 * r
    ensures NeverCarries(n, r)
  {
    MulLe(5 * n, 5 * n, 3 * r);
    MulLe(3 * r, 5 * n, 3 * r);
    MulLe(r, 5 * n, 3 * r);
    ScaledSum(n, r);
  }

  lemma ScaledSum(n: int, r: int)
    requires n > 0 && r > 0 && 5 * n * (5 * n) <= 3 * r * (3 * r) && r * (5 * n) <= r * (3 * r)
    ensures (n - 1) * (n - 1) + (r - 1) * n < r * r
  {
    var s, p, q := n * n, r * n, r * r;
    assert (n - 1) * (n - 1) == s - 2 * n + 1 && (r - 1) * n == p - n;
    assert 5 * n * (5 * n) == 25 * s && 3 * r * (3 * r) == 9 * q && r * (5 * n) == 5 * p && r * (3 * r) == 3 * q;
    assert q > 0;
  }

  lemma FactorBelow(t: nat, nDash: nat, r: nat)
    requires r > 0
    ensures ClearingFactor(t, nDash, r) < r
  {
  }

  lemma SumFits(t: nat, a: nat, b: nat, n: nat, m: nat, r: nat)
    requires t == a * b && a < n && b < n && m < r && NeverCarries(n, r)
    ensures t + m * n < r * r
  {
    MulLe(a, b, n - 1); MulLe(n - 1, a, n - 1); MulLe(n, m, r - 1);
  }

  /** Up to the full range the result is right exactly when the sum does not
      carry out of the double width: the carry is the one step that may fail. */
  lemma MontgomeryExact(a: nat, b: nat, n: nat, nDash: nat, r: nat)
    requires r > 0 && (n * nDash + 1) % r == 0 && a < n < r && b < n
    ensures Redc(a * b, n, nDash, r) < n
    ensures (Redc(a * b, n, nDash, r) * r) % n == (a * b) % n
       <==> a * b + ClearingFactor(a * b, nDash, r) * n < r * r
  {
    ProductBelowSquare(a, b, n);
    var t := a * b;
    if t + ClearingFactor(t, nDash, r) * n < r * r {
      var hi := RedcFits(t, n, nDash, r);
      RedcCongruent(t, n, ClearingFactor(t, nDash, r), r, hi, Redc(t, n, nDash, r));
    } else {
      CarryBreaks(t, n, nDash, r);
    }
  }

  /** It multiplies for every pair of factors when the modulus is below a bound
      that a caller can test, */
  lemma MontgomeryFits(a: nat, b: nat, n: nat, nDash: nat, r: nat)
    requires r > 0 && (n * nDash + 1) % r == 0 && a < n < r && b < n && NeverCarries(n, r)
    ensures Redc(a * b, n, nDash, r) < n
    ensures (Redc(a * b, n, nDash, r) * r) % n == (a * b) % n
  {
    ProductBelowSquare(a, b, n);
    var t := a * b;
    var m := ClearingFactor(t, nDash, r);
    FactorBelow(t, nDash, r);
    hide Redc, ClearingFactor, NeverCarries;
    SumFits(t, a, b, n, m, r);
    MontgomeryExact(a, b, n, nDash, r);
  }

  /** and so for every modulus of at most half the range. */
  lemma MontgomeryCorrect(a: nat, b: nat, n: nat, nDash: nat, r: nat)
    requires r > 0 && (n * nDash + 1) % r == 0 && a < n && b < n && 2 * n <= r
    ensures Redc(a * b, n, nDash, r) < n
    ensures (Redc(a * b, n, nDash, r) * r) % n == (a * b) % n
  {
    ThreeFifthsFit(n, r);
    MontgomeryFits(a, b, n, nDash, r);
  }

  /** For every width, the largest modulus breaks it: the product of n - 1 with
      itself is 1, but the returned number is 0. */
  lemma LargestModulusFails(w: nat)
    requires w > 0
    ensures var r := Pow(w); var n := r - 1;
            && (n * 1 + 1) % r == 0
            && Redc((n - 1) * (n - 1), n, 1, r) == 0
            && ((n - 1) * (n - 1)) % n == 1
            && (0 * r) % n == 0
  {
    assert Pow(w) == BASE * Pow(w - 1) >= BASE;
    LargestModulus(Pow(w));
  }

  lemma LargestModulus(r: nat)
    requires r >= 8
    ensures ((r - 1) * 1 + 1) % r == 0
    ensures Redc((r - 2) * (r - 2), r - 1, 1, r) == 0
    ensures ((r - 2) * (r - 2)) % (r - 1) == 1 && (0 * r) % (r - 1) == 0
  {
    var n, t := r - 1, (r - 2) * (r - 2);
    LargestAlgebra(r, n, t);
    Modular.DivModUnique(t, r - 4, 4, r);
    Modular.DivModUnique(t, n - 2, 1, n);
    Modular.DivModUnique(r, 1, 0, r);
    Small(4, r);
    Modular.DivModUnique(t + 4 * n, 1, 0, r * r);
    Modular.DivModUnique(0, 0, 0, r);
    Modular.DivModUnique(0, 0, 0, n);
  }

  lemma LargestAlgebra(r: nat, n: nat, t: int)
    requires r >= 8 && n == r - 1 && t == (r - 2) * (r - 2)
    ensures t == (r - 4) * r + 4 && t == (n - 2) * n + 1 && t + 4 * n == r * r && r * r > 0
  {
  }
}
