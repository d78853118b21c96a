/** Bitwise AND and OR of unsigned numbers, and words read as equal lanes. */
module Bitwise {
  import opened Modular

  function And(x: nat, y: nat): (z: nat) {
    if x == 0 || y == 0 then 0
    else (if x % 2 == 1 && y % 2 == 1 then 1 else 0) + 2 * And(x / 2, y / 2)
  }

  function Or(x: nat, y: nat): (z: nat) {
    if x == 0 then y else if y == 0 then x
    else (if x % 2 == 1 || y % 2 == 1 then 1 else 0) + 2 * Or(x / 2, y / 2)
  }

  function Pow2(k: nat): (p: nat)
    ensures p >= 1
  {
    if k == 0 then 1 else 2 * Pow2(k - 1)
  }

  /** The low k bits are worked on apart from the others. */
  lemma {:induction false} AndSplit(x: nat, hi: nat, m: nat, mhi: nat, k: nat)
    requires x < Pow2(k) && m < Pow2(k)
    ensures And(x + Pow2(k) * hi, m + Pow2(k) * mhi) == And(x, m) + Pow2(k) * And(hi, mhi)
  {
    Pow2Unfold(k);
    hide *;
    if k > 0 {
      AndSplit(x / 2, hi, m / 2, mhi, k - 1);
      Products(Pow2(k - 1), hi, mhi, And(hi, mhi));
      AndSplitStep(x, hi, m, mhi, Pow2(k - 1), Pow2(k));
    } else {
      AndSplitNone(x, hi, m, mhi);
    }
  }

  lemma Pow2Unfold(k: nat)
    ensures Pow2(k) == if k > 0 then 2 * Pow2(k - 1) else 1
  {
  }

  lemma AndSplitNone(x: nat, hi: nat, m: nat, mhi: nat)
    requires x < 1 && m < 1
    ensures And(x + 1 * hi, m + 1 * mhi) == And(x, m) + 1 * And(hi, mhi)
  {
  }

  lemma Products(p: nat, a: nat, b: nat, c: nat)
    ensures p * a >= 0 && p * b >= 0 && p * c >= 0
  {
  }

  lemma AndSplitStep(x: nat, hi: nat, m: nat, mhi: nat, p: nat, q: nat)
    requires q == 2 * p && p * hi >= 0 && p * mhi >= 0
    requires And(x / 2 + p * hi, m / 2 + p * mhi) == And(x / 2, m / 2) + p * And(hi, mhi)
    ensures q * hi >= 0 && q * mhi >= 0
    ensures And(x + q * hi, m + q * mhi) == And(x, m) + q * And(hi, mhi)
  {
    hide And;
    Halve(x, hi, p, q);
    Halve(m, mhi, p, q);
    AndUnfold(x + q * hi, m + q * mhi);
    AndUnfold(x, m);
    Halve(0, And(hi, mhi), p, q);
  }

  lemma AndUnfold(x: nat, y: nat)
    ensures And(x, y) == (if x % 2 == 1 && y % 2 == 1 then 1 else 0) + 2 * And(x / 2, y / 2)
  {
  }

  lemma Halve(x: nat, hi: nat, p: nat, q: nat)
    requires q == 2 * p
    ensures p * hi >= 0 && q * hi == 2 * (p * hi)
    ensures (x + q * hi) % 2 == x % 2 && (x + q * hi) / 2 == x / 2 + p * hi
  {
    assert q * hi == 2 * (p * hi);
    assert p * hi >= 0;
  }

  lemma {:induction false} OrSplit(x: nat, hi: nat, m: nat, mhi: nat, k: nat)
    requires x < Pow2(k) && m < Pow2(k)
    ensures Or(x + Pow2(k) * hi, m + Pow2(k) * mhi) == Or(x, m) + Pow2(k) * Or(hi, mhi)
  {
    if k > 0 {
      var p, q := Pow2(k - 1), Pow2(k);
      assert q == 2 * p;
      hide Pow2, Or;
      OrSplit(x / 2, hi, m / 2, mhi, k - 1);
      Halve(x, hi, p, q);
      Halve(m, mhi, p, q);
      OrUnfold(x + q * hi, m + q * mhi);
      OrUnfold(x, m);
      Halve(0, Or(hi, mhi), p, q);
    } else {
      assert x == 0 && m == 0;
    }
  }

  lemma OrUnfold(x: nat, y: nat)
    ensures Or(x, y) == (if x % 2 == 1 || y % 2 == 1 then 1 else 0) + 2 * Or(x / 2, y / 2)
  {
  }

  lemma RemainderStep(x: nat, p: nat)
    requires p >= 1
    ensures (2 * p - 1) % 2 == 1 && (2 * p - 1) / 2 == p - 1
    ensures x % (2 * p) == 2 * (x / 2 % p) + x % 2
  {
    var q, r := x / 2 / p, x / 2 % p;
    DivSplit(x / 2, p);
    assert q * (2 * p) == 2 * (q * p);
    DivModUnique(x, q, 2 * r + x % 2, 2 * p);
  }

  /** ANDing with k ones is taking the remainder. */
  lemma {:induction false} AndMask(x: nat, k: nat)
    ensures And(x, Pow2(k) - 1) == x % Pow2(k)
  {
    if k > 0 {
      AndMask(x / 2, k - 1);
      AndMaskStep(x, Pow2(k - 1));
    } else {
      DivModUnique(x, x, 0, 1);
    }
  }

  lemma AndMaskStep(x: nat, p: nat)
    requires p >= 1 && And(x / 2, p - 1) == x / 2 % p
    ensures And(x, 2 * p - 1) == x % (2 * p)
  {
    hide And;
    AndUnfold(x, 2 * p - 1);
    RemainderStep(x, p);
  }

  /** ORing in a number above all set bits is adding it. */
  lemma OrAdd(x: nat, hi: nat, k: nat)
    requires x < Pow2(k)
    ensures Pow2(k) * hi >= 0 && Or(x, Pow2(k) * hi) == x + Pow2(k) * hi
  {
    assert Or(x, 0) == x && Or(0, hi) == hi;
    hide Pow2, Or;
    var p := Pow2(k);
    assert p * hi >= 0 && p * 0 == 0;
    OrSplit(x, 0, 0, hi, k);
  }

  lemma OrAddLow(hi: nat, x: nat, k: nat)
    requires x < Pow2(k)
    ensures Pow2(k) * hi >= 0 && Or(Pow2(k) * hi, x) == Pow2(k) * hi + x
  {
    assert Or(hi, 0) == hi && Or(0, x) == x;
    hide Pow2, Or;
    var p := Pow2(k);
    assert p * hi >= 0 && p * 0 == 0;
    OrSplit(0, hi, x, 0, k);
  }

  /** ANDing with ones from bit k on keeps the part above bit k. */
  lemma AndUpper(r: nat, q: nat, k: nat, n: nat)
    requires r < Pow2(k) && q < Pow2(n)
    ensures Pow2(k) * q >= 0 && Pow2(k) * (Pow2(n) - 1) >= 0
    ensures And(r + Pow2(k) * q, Pow2(k) * (Pow2(n) - 1)) == Pow2(k) * q
  {
    assert And(r, 0) == 0;
    AndMask(q, n);
    hide And, Pow2;
    MulNonNegative(Pow2(k), q);
    MulNonNegative(Pow2(k), Pow2(n) - 1);
    DivModUnique(q, 0, q, Pow2(n));
    AndSplit(r, q, 0, Pow2(n) - 1, k);
  }

  lemma MulNonNegative(x: nat, y: nat)
    ensures x * y >= 0
  {
  }

  /** ANDing with ones from bit k on is nonzero exactly from 2 to the k on. */
  lemma AndHigh(x: nat, k: nat, n: nat)
    requires x < Pow2(k) * Pow2(n)
    ensures Pow2(k) * (Pow2(n) - 1) >= 0
    ensures And(x, Pow2(k) * (Pow2(n) - 1)) != 0 <==> x >= Pow2(k)
  {
    hide And, Pow2;
    var q, r := Parts(x, Pow2(k));
    Below(q, Pow2(n), Pow2(k), r);
    AndUpper(r, q, k, n);
    HighNonzero(Pow2(k), q, r);
  }

  lemma Parts(x: nat, p: nat) returns (q: nat, r: nat)
    requires p >= 1
    ensures x == r + p * q == q * p + r && r < p
  {
    q, r := x / p, x % p;
    DivSplit(x, p);
  }

  lemma HighNonzero(p: nat, q: nat, r: nat)
    requires r < p
    ensures p * q != 0 <==> r + p * q >= p
  {
    if q >= 1 {
      assert p * q == p + p * (q - 1);
      assert p * (q - 1) >= 0;
    }
  }

  /** The index of the lowest set bit, which is the number of zeros below it. */
  function TrailingZeros(d: nat): nat
    requires d > 0
  {
    if d % 2 == 1 then 0 else 1 + TrailingZeros(d / 2)
  }

  /** Bit b (a power of two) of the length l is set. */
  predicate HasBit(l: nat, b: nat)
    requires b > 0
  {
    l / b % 2 == 1
  }

  /** What is left of l below bit 2b is bit b and what is left below it. */
  lemma BitRest(l: nat, b: nat)
    requires b > 0
    ensures l % (2 * b) == l % b + if HasBit(l, b) then b else 0
  {
    var q, r := l / b, l % b;
    var h, bit := q / 2, q % 2;
    assert l == q * b + r && q == 2 * h + bit;
    assert q * b == h * (2 * b) + bit * b;
    DivModUnique(l, h, bit * b + r, 2 * b);
  }
}
