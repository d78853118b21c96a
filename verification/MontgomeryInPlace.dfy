/** Montgomery multiplication with its third product written over its own operand,
    as the source calls it, and what that loses. */
module MontgomeryInPlace {
  import opened Words
  import opened Modular
  import opened InPlace
  import opened Montgomery

  /** The result of the call, statement by statement: where the third product
      clears its operand nothing is added before the high half is taken. */
  ghost function InPlaceRedc(t: nat, n: nat, nDash: nat, w: nat): nat {
    if ReadsFirst(w) then Redc(t, n, nDash, Pow(w)) else Reduced(t, n, Pow(w))
  }

  method MontgomeryMulInPlace(wide: bool, result: array<word>, a: array<word>, b: array<word>,
                              n: array<word>, nDash: array<word>, w: nat)
    requires w > 0 && result.Length == a.Length == b.Length == n.Length == nDash.Length == w
    modifies result
    ensures Val(result[..]) == old(InPlaceRedc(Val(a[..]) * Val(b[..]), Val(n[..]), Val(nDash[..]), w))
  {
    hide Val, Pow, Reduced, ReadsFirst;
    ghost var av, bv, nv, dv := a[..], b[..], n[..], nDash[..];
    assert a[..w] == av;
    var t := VecMul(wide, a, b, w);
    ghost var tv := t[..];
    LowHalf(tv, w);
    assert n[..] == nv && nDash[..] == dv && t[..w] == tv[..w];
    var mN := VecMul(wide, t, nDash, w);
    LowHalf(mN[..], w);
    ghost var xv := mN[..];
    LowFactor(Val(tv), Val(dv), Pow(w), Val(tv[..w]), Val(xv), Val(xv[..w]));
    assert n[0..0 + w] == nv && mN[..w] == xv[..w];
    MulOver(wide, mN, n, 0, w);
    assert mN[..2 * w] == mN[..] && t[..] == tv && n[..] == nv;
    var u := new word[2 * w];
    ghost var yv := mN[..];
    var ignored := VecAdd(u, t, mN, 2 * w);
    assert n[..] == nv;
    ValBound(u[..]);
    ValBound(tv);
    SumInPlace(Val(u[..]), ignored, Val(tv), Val(xv[..w]), Val(yv), Val(nv), Val(dv), w);
    SubtractOnce(result, u, n, w);
  }

  lemma SumInPlace(u: nat, carry: nat, t: nat, m: nat, x: nat, n: nat, nDash: nat, w: nat)
    requires m == ClearingFactor(t, nDash, Pow(w)) && x == (if ReadsFirst(w) then m * n else 0)
    requires u + carry * Pow(2 * w) == t + x && u < Pow(2 * w) && t < Pow(2 * w)
    ensures Reduced(u, n, Pow(w)) == InPlaceRedc(t, n, nDash, w)
  {
    if ReadsFirst(w) {
      SumTruncated(u, carry, t, m, x, n, nDash, w);
    } else {
      DivModUnique(t, carry, u, Pow(2 * w));
      DivModUnique(t, 0, t, Pow(2 * w));
    }
  }

  /** Where the operand is cleared, the result is the reduced product exactly if
      the modulus divides the low half of the product. */
  lemma ClearedExactly(a: nat, b: nat, n: nat, r: nat)
    requires a < n < r && b < n
    ensures Reduced(a * b, n, r) < n
    ensures (Reduced(a * b, n, r) * r) % n == (a * b) % n <==> (a * b % r) % n == 0
  {
    ProductBelowSquare(a, b, n);
    ClearedQuotient(a * b, n, r);
  }

  lemma ClearedQuotient(t: nat, n: nat, r: nat)
    requires t < n * n && n < r
    ensures Reduced(t, n, r) < n
    ensures (Reduced(t, n, r) * r) % n == t % n <==> (t % r) % n == 0
  {
    var h, low := t / r, t % r;
    assert t == h * r + low;
    MulLe(n, n, r);
    QuotientBound(h, n, r);
    if low % n == 0 {
      var k := Modular.Factor(low, n);
      Congruent(t, h * r, k, n);
    }
    if (h * r) % n == t % n {
      var k := Witness(t, h * r, n);
      assert low == k * n;
      MultipleMod(low, k, n);
    }
  }

  lemma MultipleMod(x: nat, k: int, n: nat)
    requires n > 0 && x == k * n
    ensures x % n == 0
  {
    DivModUnique(x, k, 0, n);
  }

  /** So at every width that clears its operand one times one is wrong, for every
      modulus above 1. */
  lemma OneTimesOneFails(n: nat, nDash: nat, w: nat)
    requires 1 < n < Pow(w) && !ReadsFirst(w)
    ensures InPlaceRedc(1 * 1, n, nDash, w) == 0
    ensures (0 * Pow(w)) % n != (1 * 1) % n
  {
    hide Pow;
    DivModUnique(1, 0, 1, Pow(w));
    DivModUnique(1, 0, 1, n);
    DivModUnique(0, 0, 0, n);
  }
}
