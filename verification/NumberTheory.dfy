/** Primes, Euclid's lemma and Fermat's little theorem. */
module NumberTheory {
  import opened Modular

  ghost predicate Divides(d: int, n: int) {
    d > 0 && n % d == 0
  }

  ghost predicate IsPrime(n: int) {
    n >= 2 && forall d :: 2 <= d < n ==> !Divides(d, n)
  }

  function Power(x: int, n: nat): int {
    if n == 0 then 1 else x * Power(x, n - 1)
  }

  lemma MultipleDivides(d: int, k: int)
    requires d > 0
    ensures Divides(d, k * d) && Divides(d, d * k)
  {
    DivModUnique(k * d, k, 0, d);
  }

  lemma DividesSum(d: int, x: int, y: int)
    requires Divides(d, x)
    ensures Divides(d, x + y) <==> Divides(d, y)
  {
    var k := Factor(x, d);
    Congruent(x + y, y, k, d);
  }

  lemma DividesProduct(d: int, x: int, y: int)
    requires Divides(d, x)
    ensures Divides(d, x * y) && Divides(d, y * x)
  {
    var k := Factor(x, d);
    assert x * y == (k * y) * d;
    MultipleDivides(d, k * y);
  }

  lemma DividesTransitive(a: int, b: int, c: int)
    requires Divides(a, b) && Divides(b, c)
    ensures Divides(a, c)
  {
    var k := Factor(c, b);
    DividesProduct(a, b, k);
  }

  /** Euclid's lemma for a factor below the prime, by taking remainders. */
  lemma {:induction false} EuclidSmall(p: int, a: int, b: int)
    requires IsPrime(p) && 0 < a < p && Divides(p, a * b)
    ensures Divides(p, b)
    decreases a
  {
    if a > 1 {
      var q, r := p / a, p % a;
      assert !Divides(a, p);
      assert r * b == p * b - q * (a * b);
      MultipleDivides(p, b);
      DividesProduct(p, a * b, q);
      DividesSum(p, q * (a * b), r * b);
      EuclidSmall(p, r, b);
    }
  }

  lemma Euclid(p: int, a: int, b: int)
    requires IsPrime(p) && Divides(p, a * b)
    ensures Divides(p, a) || Divides(p, b)
  {
    if a % p != 0 {
      var k := Witness(a, a % p, p);
      TimesWitness(a, a % p, k, p, b);
      MultipleDivides(p, k * b);
      DividesSum(p, k * b * p, (a % p) * b);
      EuclidSmall(p, a % p, b);
    }
  }

  lemma TimesWitness(a: int, r: int, k: int, p: int, b: int)
    requires a - r == k * p
    ensures r * b + k * b * p == a * b
  {
    assert k * b * p == k * p * b;
  }

  lemma SmallNotMultiple(p: int, x: int)
    requires 0 < x < p
    ensures !Divides(p, x)
  {
    DivModUnique(x, 0, x, p);
  }

  /** Modulo a prime, 1 has no square roots but 1 and -1. */
  lemma SquareRootOfOne(p: int, x: int)
    requires IsPrime(p) && 0 < x < p && (x * x) % p == 1
    ensures x == 1 || x == p - 1
  {
    DivModUnique(1, 0, 1, p);
    var k := Witness(x * x, 1, p);
    assert (x - 1) * (x + 1) == k * p;
    MultipleDivides(p, k);
    Euclid(p, x - 1, x + 1);
    if 1 < x < p - 1 {
      SmallNotMultiple(p, x - 1);
      SmallNotMultiple(p, x + 1);
      assert false;
    }
  }

  /** Binomial coefficients. */
  ghost function Choose(n: nat, k: nat): nat {
    if k == 0 then 1 else if n == 0 then 0 else Choose(n - 1, k - 1) + Choose(n - 1, k)
  }

  lemma {:induction false} ChooseEdge(n: nat, k: nat)
    requires k >= n
    ensures Choose(n, k) == if k == n then 1 else 0
  {
    if n > 0 {
      ChooseEdge(n - 1, k - 1);
      ChooseEdge(n - 1, k);
    }
  }

  lemma {:induction false} Absorption(n: nat, k: nat)
    requires n > 0 && k > 0
    ensures k * Choose(n, k) == n * Choose(n - 1, k - 1)
  {
    if n == 1 {
      ChooseEdge(0, k);
      ChooseEdge(0, k - 1);
    } else if k == 1 {
      Absorption(n - 1, 1);
      assert Choose(n - 1, 0) == Choose(n - 2, 0) == 1;
    } else {
      Absorption(n - 1, k);
      Absorption(n - 1, k - 1);
      AbsorptionSum(n, k, Choose(n - 1, k - 1), Choose(n - 1, k), Choose(n - 2, k - 2), Choose(n - 2, k - 1));
    }
  }

  lemma AbsorptionSum(n: int, k: int, c: int, d: int, e: int, f: int)
    requires (k - 1) * c == (n - 1) * e && k * d == (n - 1) * f && c == e + f
    ensures k * (c + d) == n * c
  {
    assert k * (c + d) == (k - 1) * c + c + k * d;
    assert (n - 1) * c == (n - 1) * e + (n - 1) * f;
  }

  lemma PrimeDividesChoose(p: nat, k: nat)
    requires IsPrime(p) && 0 < k < p
    ensures Divides(p, Choose(p, k))
  {
    Absorption(p, k);
    MultipleDivides(p, Choose(p - 1, k - 1));
    Euclid(p, k, Choose(p, k));
    DivModUnique(k, 0, k, p);
  }

  /** The first k terms of the expansion of (1 + x) to the power n. */
  ghost function Row(n: nat, x: nat, k: nat): int {
    if k == 0 then 0 else Row(n, x, k - 1) + Choose(n, k - 1) * Power(x, k - 1)
  }

  lemma {:induction false} RowPascal(n: nat, x: nat, k: nat)
    ensures Row(n + 1, x, k + 1) == Row(n, x, k + 1) + x * Row(n, x, k)
  {
    if k > 0 {
      RowPascal(n, x, k - 1);
      PascalTerm(Choose(n, k - 1), Choose(n, k), x, Power(x, k - 1), Row(n, x, k - 1));
    }
  }

  lemma PascalTerm(c: int, d: int, x: int, y: int, row: int)
    ensures (c + d) * (x * y) + x * row == d * (x * y) + x * (row + c * y)
  {
    assert (c + d) * (x * y) == d * (x * y) + c * (x * y);
    assert x * (row + c * y) == x * row + x * (c * y);
    assert x * (c * y) == c * (x * y);
  }

  lemma {:induction false} Binomial(n: nat, x: nat)
    ensures Power(1 + x, n) == Row(n, x, n + 1)
  {
    if n == 0 {
      assert Row(0, x, 1) == Row(0, x, 0) + Choose(0, 0) * Power(x, 0);
    } else {
      Binomial(n - 1, x);
      RowPascal(n - 1, x, n);
      ChooseEdge(n - 1, n);
      var s := Row(n - 1, x, n);
      assert Row(n - 1, x, n + 1) == s + 0 * Power(x, n) == s;
      assert (1 + x) * s == s + x * s;
    }
  }

  /** Modulo a prime only the ends of its row are left. */
  lemma {:induction false} RowModulo(p: nat, x: nat, k: nat)
    requires IsPrime(p) && 1 <= k <= p
    ensures Row(p, x, k) % p == 1
  {
    if k == 1 {
      assert Row(p, x, 1) == Row(p, x, 0) + Choose(p, 0) * Power(x, 0);
      DivModUnique(1, 0, 1, p);
    } else {
      RowModulo(p, x, k - 1);
      PrimeDividesChoose(p, k - 1);
      DividesProduct(p, Choose(p, k - 1), Power(x, k - 1));
      var j := Factor(Choose(p, k - 1) * Power(x, k - 1), p);
      Congruent(Row(p, x, k), Row(p, x, k - 1), j, p);
    }
  }

  lemma {:induction false} FermatPower(p: nat, a: nat)
    requires IsPrime(p)
    ensures Power(a, p) % p == a % p
  {
    if a == 0 {
      assert Power(0, p) == 0 * Power(0, p - 1);
    } else {
      FermatPower(p, a - 1);
      PowerSplit(p, a - 1);
      var j := Witness(Row(p, a - 1, p), 1, p);
      var k := Witness(Power(a - 1, p), a - 1, p);
      assert (j + k) * p == j * p + k * p;
      Congruent(Power(a, p), a, j + k, p);
    }
  }

  /** The row of a prime, without its last term, leaves remainder 1. */
  lemma PowerSplit(p: nat, x: nat)
    requires IsPrime(p)
    ensures Power(1 + x, p) == Row(p, x, p) + Power(x, p)
    ensures Row(p, x, p) % p == 1 % p
  {
    Binomial(p, x);
    RowModulo(p, x, p);
    ChooseEdge(p, p);
    DivModUnique(1, 0, 1, p);
  }

  /** Fermat's little theorem. */
  lemma Fermat(p: nat, a: nat)
    requires IsPrime(p) && !Divides(p, a)
    ensures Power(a, p - 1) % p == 1
  {
    FermatPower(p, a);
    var y := Power(a, p - 1);
    var k := Witness(a * y, a, p);
    assert a * (y - 1) == k * p;
    MultipleDivides(p, k);
    Euclid(p, a, y - 1);
    DivModUnique(1, 0, 1, p);
    var j := Factor(y - 1, p);
    Congruent(y, 1, j, p);
  }

  lemma {:induction false} PowerAdd(x: int, m: nat, n: nat)
    ensures Power(x, m + n) == Power(x, m) * Power(x, n)
  {
    if m > 0 {
      PowerAdd(x, m - 1, n);
      assert x * (Power(x, m - 1) * Power(x, n)) == x * Power(x, m - 1) * Power(x, n);
    }
  }

  lemma {:induction false} PowerSquare(x: int, n: nat)
    ensures Power(x * x, n) == Power(x, 2 * n)
  {
    if n > 0 {
      PowerSquare(x, n - 1);
      assert Power(x, 2 * n) == x * (x * Power(x, 2 * n - 2));
    }
  }

  lemma {:induction false} PowerMul(x: int, m: nat, n: nat)
    ensures Power(Power(x, m), n) == Power(x, m * n)
  {
    if n > 0 {
      PowerMul(x, m, n - 1);
      PowerAdd(x, m, m * (n - 1));
      assert m + m * (n - 1) == m * n;
    }
  }

  lemma {:induction false} PowerCongruent(x: int, y: int, n: nat, p: int)
    requires p > 0 && x % p == y % p
    ensures Power(x, n) % p == Power(y, n) % p
  {
    if n > 0 {
      PowerCongruent(x, y, n - 1, p);
      MulCongruent(x, y, Power(x, n - 1), Power(y, n - 1), p);
    }
  }
}
